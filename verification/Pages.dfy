/** The pages of the moderation queue: `mod` of web/web.go. */
module Pages {
  import opened Sorting

  const MOD_PER_PAGE := 10

  /** At least one page, and enough pages for all files. */
  function MaxPage(files: nat): (m: nat)
    ensures m >= 1
  {
    var pages := (files + MOD_PER_PAGE - 1) / MOD_PER_PAGE;
    if pages < 1 then 1 else pages
  }

  function Halves(p: nat): seq<int> {
    if p > 1 then [p] + Halves(p / 2) else []
  }

  function Doubles(p: nat, max: nat): seq<int>
    requires p > 0
    decreases max - p
  {
    if p < max then [p] + Doubles(p * 2, max) else []
  }

  function Log2(n: nat): nat {
    if n < 2 then 0 else 1 + Log2(n / 2)
  }

  lemma {:induction false} Log2Monotone(m: nat, n: nat)
    requires m <= n
    ensures Log2(m) <= Log2(n)
  {
    if m >= 2 {
      Log2Monotone(m / 2, n / 2);
    }
  }

  lemma {:induction false} HalvesCount(p: nat)
    ensures |Halves(p)| == Log2(p) && forall x <- Halves(p) :: 1 < x <= p
  {
    if p > 1 {
      HalvesCount(p / 2);
    }
  }

  lemma {:induction false} DoublesCount(p: nat, max: nat)
    requires p > 0
    ensures p < max ==> |Doubles(p, max)| + Log2(p) <= Log2(max) + 1
    ensures forall x <- Doubles(p, max) :: p <= x < max
    decreases max - p
  {
    if p < max {
      DoublesCount(p * 2, max);
      Log2Monotone(p, max);
      assert Log2(p * 2) == 1 + Log2(p);
    }
  }

  /** All candidates for page links, as the loops collect them. */
  function Candidates(page: nat, max: nat): seq<int>
    requires 1 <= page <= max
  {
    [1, page, max] + Halves(page - 1) + Doubles(page + 1, max)
  }

  /** The number of candidates is logarithmic, and all of them are pages. */
  lemma CandidatesAreFew(page: nat, max: nat)
    requires 1 <= page <= max
    ensures |Candidates(page, max)| <= 3 + 2 * Log2(max)
    ensures forall x <- Candidates(page, max) :: 1 <= x <= max
  {
    HalvesCount(page - 1);
    Log2Monotone(page - 1, max);
    DoublesCount(page + 1, max);
    Log2Monotone(2, page + 1);
  }

  /** `p`, halved and doubled `k` times. */
  function Halved(p: nat, k: nat): nat {
    if k == 0 then p else Halved(p / 2, k - 1)
  }

  function Doubled(p: nat, k: nat): nat
    decreases k
  {
    if k == 0 then p else Doubled(p * 2, k - 1)
  }

  ghost predicate IsHalving(p: nat, x: int) {
    exists k: nat :: x == Halved(p, k)
  }

  ghost predicate IsDoubling(p: nat, x: int) {
    exists k: nat :: x == Doubled(p, k)
  }

  lemma {:induction false} HalvedIsLess(p: nat, k: nat)
    ensures Halved(p, k) <= p
  {
    if k > 0 {
      HalvedIsLess(p / 2, k - 1);
    }
  }

  lemma {:induction false} DoubledIsMore(p: nat, k: nat)
    ensures Doubled(p, k) >= p
    decreases k
  {
    if k > 0 {
      DoubledIsMore(p * 2, k - 1);
    }
  }

  lemma {:induction false} HalvesAre(p: nat, x: int)
    ensures x in Halves(p) <==> x > 1 && IsHalving(p, x)
  {
    if p > 1 {
      HalvesAre(p / 2, x);
      if k: nat :| x == Halved(p / 2, k) {
        assert x == Halved(p, k + 1);
      }
      if k: nat :| x == Halved(p, k) {
        assert k > 0 ==> x == Halved(p / 2, k - 1);
      }
      assert Halved(p, 0) == p;
    } else {
      forall k: nat
        ensures Halved(p, k) <= 1
      {
        HalvedIsLess(p, k);
      }
    }
  }

  lemma {:induction false} DoublesAre(p: nat, max: nat, x: int)
    requires p > 0
    ensures x in Doubles(p, max) <==> x < max && IsDoubling(p, x)
    decreases max - p
  {
    if p < max {
      DoublesAre(p * 2, max, x);
      if k: nat :| x == Doubled(p * 2, k) {
        assert x == Doubled(p, k + 1);
      }
      if k: nat :| x == Doubled(p, k) {
        assert k > 0 ==> x == Doubled(p * 2, k - 1);
      }
      assert Doubled(p, 0) == p;
    } else {
      forall k: nat
        ensures Doubled(p, k) >= max
      {
        DoubledIsMore(p, k);
      }
    }
  }

  /** There are links to the first, the current and the last page, to the pages below that come from halving the number
      before the current one, and to the pages above that come from doubling the number behind it. */
  lemma CandidatesAre(page: nat, max: nat, x: int)
    requires 1 <= page <= max
    ensures x in Candidates(page, max) <==>
            || x == 1 || x == page || x == max
            || (x > 1 && IsHalving(page - 1, x)) || (x < max && IsDoubling(page + 1, x))
  {
    hide Halves, Doubles;
    HalvesAre(page - 1, x);
    DoublesAre(page + 1, max, x);
    assert [1, page, max][0] == 1 && [1, page, max][1] == page && [1, page, max][2] == max;
  }

  /** The page links: strictly increasing, with the first, the current and the last page, and few. */
  method PageLinks(page: nat, max: nat) returns (links: seq<int>)
    requires 1 <= page <= max
    ensures StrictlySorted(IntLeq, links)
    ensures forall p <- links :: 1 <= p <= max
    ensures 1 in links && page in links && max in links
    ensures forall p :: p in links <==> p in Candidates(page, max)
    ensures |links| <= 3 + 2 * Log2(max)
  {
    var pages: seq<int> := [1, page, max];
    var p := page - 1;
    while p > 1
      invariant p >= 0 && pages + Halves(p) == [1, page, max] + Halves(page - 1)
    {
      pages := pages + [p];
      p := p / 2;
    }
    ghost var lower := pages;
    assert lower + [] == lower;
    p := page + 1;
    while p < max
      invariant p > 0 && pages + Doubles(p, max) == lower + Doubles(page + 1, max)
      decreases max - p
    {
      pages := pages + [p];
      p := p * 2;
    }
    assert pages + [] == pages;
    assert pages == Candidates(page, max);
    pages := Sort(IntLeq, pages);
    links := [];
    assert pages[..0] == [];
    for i := 0 to |pages|
      invariant links == Unique(pages[..i])
    {
      assert pages[..i + 1][..i] == pages[..i];
      if i > 0 && pages[i - 1] == pages[i] {
        continue;
      }
      links := links + [pages[i]];
    }
    assert pages[..|pages|] == pages;
    LinksOf(page, max, pages, links);
  }

  lemma LinksOf(page: nat, max: nat, pages: seq<int>, links: seq<int>)
    requires 1 <= page <= max && pages == Sort(IntLeq, Candidates(page, max)) && links == Unique(pages)
    ensures StrictlySorted(IntLeq, links)
    ensures forall p <- links :: 1 <= p <= max
    ensures 1 in links && page in links && max in links
    ensures forall p :: p in links <==> p in Candidates(page, max)
    ensures |links| <= 3 + 2 * Log2(max)
  {
    hide Sort, Unique, Halves, Doubles;
    var candidates := Candidates(page, max);
    SortSame(IntLeq, candidates);
    SortIsSorted(IntLeq, candidates);
    UniqueOfSorted(IntLeq, pages);
    UniqueKeepsElements(pages);
    CandidatesAreFew(page, max);
    assert |pages| == |multiset(pages)| == |candidates|;
    forall p
      ensures p in links <==> p in candidates
    {
      assert p in pages <==> p in multiset(pages);
      assert p in candidates <==> p in multiset(candidates);
    }
    assert candidates[0] == 1 && candidates[1] == page && candidates[2] == max;
  }

  predicate LexGeq(a: string, b: string) {
    LexLeq(b, a)
  }

  lemma DescendingOrder()
    ensures TotalOrder(LexGeq)
  {
    LexOrder();
  }

  datatype PageParameter = Page(number: int) | NotANumber

  /** The requested page, kept within 1 and the last page. */
  function PageOf(parameter: PageParameter, max: nat): (page: nat)
    requires max >= 1
    ensures 1 <= page <= max
  {
    var page := if parameter.Page? then parameter.number else 1;
    if page < 1 then 1 else if page > max then max else page
  }

  /** The files that a page shows, of all files in descending order. */
  function Shown(files: seq<string>, page: nat): seq<string>
    requires 1 <= page <= MaxPage(|files|)
  {
    var from := (page - 1) * MOD_PER_PAGE;
    if from + MOD_PER_PAGE <= |files| then files[from..from + MOD_PER_PAGE]
    else if from <= |files| then files[from..] else []
  }

  /** A GET request for a page of the queue whose directory holds the files `names`. */
  method ShowPage(names: seq<string>, parameter: PageParameter) returns (page: nat, links: seq<int>, shown: seq<string>)
    ensures page == PageOf(parameter, MaxPage(|names|))
    ensures parameter.Page? ==>
            && (1 <= parameter.number <= MaxPage(|names|) ==> page == parameter.number)
            && (parameter.number < 1 ==> page == 1)
            && (parameter.number > MaxPage(|names|) ==> page == MaxPage(|names|))
    ensures parameter.NotANumber? ==> page == 1
    ensures StrictlySorted(IntLeq, links) && forall p :: p in links <==> p in Candidates(page, MaxPage(|names|))
    ensures var sorted := Sort(LexGeq, names);
            multiset(sorted) == multiset(names) && Sorted(LexGeq, sorted)
            && |sorted| == |names| && shown == Shown(sorted, page)
  {
    hide Sort, Sorted, Candidates, Log2;
    var maxPage := MaxPage(|names|);
    page := if parameter.Page? && parameter.number >= 1 then parameter.number else 1;
    if page > maxPage {
      page := maxPage;
    }
    links := PageLinks(page, maxPage);
    var files := Sort(LexGeq, names);
    DescendingOrder();
    SortSame(LexGeq, names);
    SortIsSorted(LexGeq, names);
    assert |files| == |multiset(files)| == |names|;
    var from := (page - 1) * MOD_PER_PAGE;
    shown := files;
    if from < |shown| && |shown| > 0 {
      shown := shown[from..];
    }
    if |shown| > MOD_PER_PAGE {
      shown := shown[..MOD_PER_PAGE];
    }
  }

  /** The pages 1 to `n` one after the other. */
  function FirstPages(files: seq<string>, n: nat): seq<string>
    requires n <= MaxPage(|files|)
  {
    if n == 0 then [] else FirstPages(files, n - 1) + Shown(files, n)
  }

  lemma {:induction false} FirstPagesAre(files: seq<string>, n: nat)
    requires n <= MaxPage(|files|)
    ensures FirstPages(files, n) == files[..if n * MOD_PER_PAGE <= |files| then n * MOD_PER_PAGE else |files|]
  {
    if n > 0 {
      FirstPagesAre(files, n - 1);
    }
  }

  /** Main result on pages: together they show every file once, in order. */
  lemma PagesPartitionQueue(files: seq<string>)
    ensures FirstPages(files, MaxPage(|files|)) == files
  {
    FirstPagesAre(files, MaxPage(|files|));
  }

  /** No page is empty unless the queue is, and all but the last one show ten files. */
  lemma PageSize(files: seq<string>, page: nat)
    requires 1 <= page <= MaxPage(|files|)
    ensures |Shown(files, page)| <= 10 && (files != [] ==> Shown(files, page) != [])
    ensures page < MaxPage(|files|) ==> |Shown(files, page)| == 10
  {
  }
}
