/** The byte sink that headers and messages are written to. */
module Output {

  /** A writer may fail at any write, after taking over only the first bytes of it. A writer that
      failed once takes nothing any more, like a closed pipe or a full disk. */
  class Writer {
    var out: string
    var failed: bool

    constructor ()
      ensures out == "" && !failed
    {
      out, failed := "", false;
    }

    method Write(s: string) returns (n: nat, ok: bool)
      modifies this
      ensures n <= |s| && out == old(out) + s[..n]
      ensures ok == !failed && (old(failed) ==> failed && n == 0)
      ensures ok ==> n == |s|
    {
      var fails: bool := *;
      if failed {
        n := 0;
      } else if fails {
        n :| 0 <= n <= |s|;
        failed := true;
      } else {
        n := |s|;
      }
      ok := !failed;
      out := out + s[..n];
    }

    /** Whatever fails, the output is a beginning of `goal`; without failure `rest` is still to come. */
    ghost predicate Towards(rest: string, goal: string)
      reads this
    {
      out <= goal && (failed || out + rest == goal)
    }

    /** `Write` of the first part of what is left to reach `goal`. */
    method Put(s: string, ghost rest: string, ghost goal: string) returns (n: nat, ok: bool)
      requires Towards(s + rest, goal)
      modifies this
      ensures Towards(rest, goal)
      ensures ok == !failed && n <= |s| && (ok ==> n == |s|)
      ensures old(failed) ==> failed && out == old(out)
    {
      ghost var before, fine := out, !failed;
      n, ok := Write(s);
      if fine {
        Step(before, s, rest, goal, n);
      }
    }
  }

  lemma Step(out: string, s: string, rest: string, goal: string, n: nat)
    requires out + (s + rest) == goal && n <= |s|
    ensures out + s[..n] <= goal
    ensures n == |s| ==> out + s[..n] + rest == goal
  {
    assert out + (s + rest) == out + s[..n] + (s[n..] + rest);
  }
}
