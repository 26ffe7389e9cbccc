# ulist: a verified model of the header printer and the mailing-list server

ulist takes mail over LMTP, decides for each mailing list whether it is forwarded, moderated or rejected,
and prints every header it sends or stores with its own line folder. This project describes that behaviour
in Dafny and proves what it is meant to guarantee. `dafny verify dfyconfig.toml` checks all of it.

**The header printer** (`Text`, `Splitting`, `Output`, `Fold*`, `Refold`, `Reader`, `Sorting`, `Header`,
`Message`, `Resaving`, `Printed`, `Savable`). The loops of `headerWritelnFold` and `WriteHeader` are methods that write to a sink that
may fail at any byte; they are proved against a specification of the printed text. About that text it is proved
that the greedy folding needs the fewest lines, that lines have the required length and shape, that nothing
visible is lost, that a reader after RFC 5322 (sections 2.2 and 2.2.3) gets back every field, and exactly under
which conditions a value comes back unchanged, and a message that is read back and saved again gives the same bytes.

**The list server** (`Address`, `Tables`, `ListDB`, `Deciding`, `Mac`, `Ulist`, `Forwarding`, `Lmtp`, `Dispositions`,
`Routing`, `Moderation`, `Web`, `Runs`, `Server`).
The database, the server, the LMTP session and the web interface are classes whose methods change their fields.
Every statement, commit, mail and file operation may fail. The server keeps a trace of what it did to the
world; `Valid()` of the server says that double opt-in holds of the trace, and `Valid()` of a session says
which lists it may have accepted. All methods keep them. `Servers.Server.ServeAll` puts everything together: it serves any
sequence of mail commands, web requests and administration, one after the other, and proves what holds in every reachable
state. The database tables and the moderation queue have step relations, and the statements about runs are lemmas about
sequences of steps. What the methods compute is specified by functions; what these functions mean is stated apart from
them, in terms of the rows of the tables, the settings of a list and the fields of a message: `Printed` for the
printed header, `Deciding.DecidedIsMaximum` for the decision, `Dispositions` for what becomes of a delivery, `Forwarding`
for what the receivers get, and `Tables.AddedRows` and `RemovedRows` for the tables.

**Three algorithms**: the in-place removal of duplicates (`Address`), the netstring codec (`Decimal`,
`Netstring`), and the pages of the moderation queue (`Pages`).

Conventions. A `char` stands for a byte, and white space is SP, TAB, CR, LF, VT and FF. `Addr` stands for
an address that came from the address parser: in lower case, without control bytes, and with the last `@` before the domain. Library code (parsing and printing addresses, subject encoding) is
a parameter of type `Library`; `Ulists.Faithful` says what is assumed of it. A MAC is ideal: a tag names its key
and its input, and nobody presents a genuine tag that was not issued (`Ulists.Unforged`). Clocks are parameters.

Where the code differs from what one might expect, the model follows the code:

- A value whose words exceed the hard line limit does not read back; `FoldExact.HeaderReadsBackExactly` states the exact
  condition, and `Savable.SavableMessageReadsBack` states it for the values in the header. When several `To`, `Cc`, `Bcc` or
  `Reply-To` values are joined, a comma makes the last word of a value one byte longer.
- A value with runs of spaces is not read back as it was if a line ends at such a run; the exact condition for any
  value is `FoldExact.LegibleHeaderReadsBackExactly`. A blank value takes the next field for its value
  (`Reader.BlankTakesNext`).
- Saving a message that was read back need not give the same bytes. Two things can happen: a line that lost white space
  at its end (a run of spaces, or VT and FF) gets room for the next word (`Resaving.SpacesMoveWords`), and a break of an overlong word can put a space into
  "withESMTPA" or the like (`Resaving.WithheldLater`). `Resaving.SavingIsFixed` states the exact condition.
- `WriteHeader` withholds the key X-Originating-IP, but reading a message spells this key X-Originating-Ip, so the field is
  printed whenever a message was read (`Printed.OriginatingAddressIsPrinted`).
- Whoever was asked to confirm joining or leaving is never asked again, unless the clock is set back: the comparison is with a
  time seven days ahead (`Ulists.AskedForEver`).
- Optimality is stated for foldings at SP and TAB, which RFC 5322 calls white space. VT or FF next to a SP
  counts as text there, although `TrimSpace` drops it at a line end.
- The code never folds at the space behind the colon. This never costs a line, but it costs the 78 columns when the first
  word does not fit beside the name; `FoldOptimal.FoldingBehindColon` states this.
- `IsList` and `IsKnown` return a variable beside the call that fills it, an order that Go leaves open. The model takes the
  variable as filled.
- `Decode` of a netstring does not look at the last byte.
- `AddMembers` and `AddKnowns` do not check that the list still exists, and SQLite may reuse the id of a deleted list;
  `Tables.StaleHandle` states exactly when rows that are added with an old handle are good.
- The tag of a link does not say whether the link is for joining or for leaving (`Webs.LinksServeBoth`), so double opt-in
  speaks of a link of either kind.
- In the moderation form, asking to add the sender of an unreadable message that is to be deleted crashes the handler, and the
  rest of the form is not processed; `Moderations.CrashesExactly` states the exact condition.
- The comparison of From and Sender in join and leave mails refuses equal addresses (lmtp.go:263), against its error text. It is
  modelled as it is written, and nothing is claimed about it.

## Model

| member | source | states |
|---|---|---|
| Fold.FindCrop | mailutil/header.go:116-155 | The three loops choose the crop that the specification names: the whole body if it fits in 78 columns, else the last SP or TAB in reach, else the first one up to column 998, else the hard limit. |
| Fold.WriteLine | mailutil/header.go:107-169 | One iteration writes one line and leaves exactly the rest of the body; "could not crop" never happens; what a failing write leaves is a beginning of the intended text. |
| Fold.HeaderWritelnFold | mailutil/header.go:90-173 | Without a write error the printed field is appended; a name over 995 bytes is refused before anything is written; any failure leaves a beginning of the field; a non-blank body never hides a write error. |
| FoldShape.PieceShape | mailutil/header.go:118-161 | The text of a line begins and ends visibly, keeps within 998 bytes, and exceeds 78 columns only without a SP or TAB in it. |
| FoldShape.FieldTextLines | mailutil/header.go:97-170 | The printed field is its lines, each ended by CRLF. |
| FoldShape.LineShape | mailutil/header.go:86-173 | Every line of every field: name first, then one space and visible ends; at most 998 bytes; over 78 columns only if there was no place to fold. |
| FoldShape.NothingVisibleLost | mailutil/header.go:97-170 | For any body, the bytes other than white space come out in the same order. |
| FoldOptimal.GreedyAhead | mailutil/header.go:100-170 | The greedy folding is never behind another folding whose lines fit or are single words, needs no more lines for what is left, and fits if the other does. |
| FoldOptimal.FoldingIsOptimal | mailutil/header.go:100-170 | No folding at SP and TAB that begins beside the name has fewer lines, if its lines keep within 78 columns or are a single word within the hard limit; the greedy lines are of this kind, too, and all keep within 78 columns if those of the other do. |
| FoldOptimal.FoldingBehindColon | mailutil/header.go:100-170 | Nor has any folding of this kind that begins behind a fold at the space behind the colon. If there is one within 78 columns, all greedy lines but the first keep within 78 columns; the first does if the first word fits beside the name and, without VT and FF, only then. |
| FoldOptimal.LinesFit | mailutil/header.go:118-135 | If every word fits (the first beside the name, the others in 77 bytes), all lines have at most 78 columns. |
| FoldLossless.GreedyIsFolding | mailutil/header.go:124-146 | Within the hard limit lines are only broken at SP and TAB, never inside a word. |
| FoldLossless.FoldingKeepsWords | mailutil/header.go:97-170 | Unfolding any folding gives the same sequence of words. |
| FoldLossless.UnfoldingRestores | mailutil/header.go:97-170 | Unfolding the printed lines gives the words of the body, and the identical body if it was single-spaced. |
| FoldExact.GapsOfFolding | mailutil/header.go:148-155 | For a single-spaced text folding loses no gap between words, and if it adds none, the words keep within the hard limit. |
| FoldExact.ReadsBackExactly | mailutil/header.go:90-173 | A single-spaced body comes back from folding and unfolding if and only if its words keep within the hard limit. |
| FoldExact.FieldReadsBackExactly | mailutil/header.go:90-173 | A printed field is read back as it was if and only if the words of its value keep within the hard limit. |
| FoldExact.HeaderReadsBackExactly | mailutil/header.go:176-231 | A whole header of clean fields is read back as it was if and only if the words of all values keep within the hard limit. |
| FoldExact.LegibleHeaderReadsBackExactly | mailutil/header.go:176-231 | Any header of non-blank values is read back as it was if and only if no value has white space around it and every line of it ends at a single space. |
| Reader.BlankTakesNext | mailutil/header.go:97-105 | A blank value is printed without a line end, so that the next field is read as its value. |
| Refolding.FoldingTwice | mailutil/header.go:90-173 | For every non-blank body, folding what was folded and unfolded gives the same lines if and only if no line has room for the first word of the next line. |
| Refolding.SingleSpacedIsTight | mailutil/header.go:90-173 | Lines of a single-spaced body without VT and FF never have such room, even where the hard limit breaks words. |
| Reader.HeaderReadsAs | mailutil/header.go:176-231 | Reading a printed header of non-blank values gives its fields in order, each with its value as folded and unfolded, and behind the first blank line the body. |
| Reader.HeaderReadsBack | mailutil/header.go:176-231 | Reading a printed header gives exactly its fields, and behind the first blank line the body. |
| Headers.WriteValues | mailutil/header.go:209-226 | The values of one key are printed in order, without the withheld ones and with MIME-Version renamed, up to a name that is too long. |
| Headers.WriteKey | mailutil/header.go:194-227 | One key is joined in the header if need be, other keys are not touched, and its fields are printed. |
| Headers.WriteHeader | mailutil/header.go:176-231 | Whatever order the map is iterated in, the kept Received fields, then the other kept fields by key, then a blank line are printed; the header ends up joined; no write error is lost. |
| Printed.ExactlyPublicValuesArePrinted | mailutil/header.go:176-231 | What is printed of any header: every value of every key, once, where several addresses of a once-only field are one value, except for User-Agent, X-Originating-IP and Received with one of four protocol names; Received first, then by key, the values of a key in their order, with the name of the key or MIME-Version. |
| Printed.NothingPrivateIsPrinted | mailutil/header.go:211-219 | No printed field of a header that was read has the name User-Agent or X-Originating-IP, and no printed Received field names a protocol for authenticated users. |
| Printed.OriginatingAddressIsPrinted | mailutil/header.go:213-214 | Of a message that was read, X-Originating-IP is printed nevertheless, because reading has changed the spelling of its key. |
| Messages.Save | mailutil/message.go:48-59 | Header and body are written; every failure is reported and leaves a beginning of the saved text. |
| Resaving.PrintedFieldsReadBack | mailutil/message.go:26-58 | Grouping the printed fields by canonical key and printing again gives the same fields in the same order. |
| Resaving.PrintedFieldsAgain | mailutil/message.go:26-58 | Whatever reading does to the values, grouping by canonical key and printing again gives the same fields in the same order, without those whose values are withheld now. |
| Resaving.SavedReadsBack | mailutil/message.go:26-58 | A saved message reads back as the kept fields and the body. |
| Resaving.SavingIsFixed | mailutil/message.go:26-58 | For every header of non-blank values, saving, reading back and saving again gives the same bytes if and only if no printed value is read back as one that is withheld, and no printed line has room for the first word of the next line. |
| Resaving.WithheldLater | mailutil/header.go:209-226 | A Received value with "withESMTPA" in one long word is such a value: the break puts a space into it. |
| Resaving.SpacesMoveWords | mailutil/header.go:116-155 | A Subject with three spaces where a line ends has such a line: the second save moves a word. |
| Resaving.JoiningIsInvisible | mailutil/header.go:194-207 | Although a save joins address fields in the map, a second save prints the same; joining is idempotent. |
| Savable.JoinedIsPrintable | mailutil/header.go:27-29 | Addresses joined with comma and space read back if and only if their words, with the comma at the last word of all but the last address, keep within the hard limit. |
| Savable.SavableMessageReadsBack | mailutil/message.go:26-58 | In terms of the values in the header: a message reads back exactly if and only if the words of its values, with the commas of joined addresses, keep within the hard limit; saving it again changes nothing then. |
| Sorting.SortPermutation | mailutil/header.go:178-188 | Sorting makes the order of map iteration irrelevant. |
| Addresses.EqualsIffSame | mailutil/address.go:24-27 | Of parsed addresses, `Equals` holds exactly for the same mailbox, whatever the display names. |
| Addresses.Compact | mailutil/address.go:140-149 | The loop that overwrites the slice it compares leaves the elements that differ from their predecessor in the original slice. |
| Sorting.UniqueOfSorted | mailutil/address.go:138-149 | Of a sorted list these are strictly increasing. |
| Addresses.RFC5322AddrSpecs | mailutil/address.go:133-152 | The result is strictly increasing and holds exactly the specs of the input. |
| Decimal.AtoiOfFormat | sockmap/netstring/netstring.go:17-38 | Reading a printed 64-bit number gives the number. |
| Decimal.AtoiExactly | sockmap/netstring/netstring.go:17-20 | The numerals that are read are an optional sign and any digits, if the number has 64 bits. |
| Netstring.DecodeExactly | sockmap/netstring/netstring.go:10-35 | Decoding gives a value if and only if the input is a numeral of its length, a colon, the value and one byte. |
| Netstring.RoundTrip | sockmap/netstring/netstring.go:10-39 | Decoding an encoded string gives the string, whatever bytes it has. |
| Pages.PageLinks | web/web.go:966-986 | The links are strictly increasing pages with the first, the current and the last, and at most 3 + 2 log2 of the last page. |
| Pages.CandidatesAre | web/web.go:966-976 | There are links to exactly the first, the current and the last page, the pages above 1 that halving the number before the current one gives, and those below the last that doubling the number behind it gives. |
| Pages.ShowPage | web/web.go:930-1002 | A page number in range is taken, others are replaced by the first or the last page; the page shows its slice of the descending file list. |
| Pages.PagesPartitionQueue | web/web.go:990-1002 | Pages 1 to the last show the whole list, in order and once. |
| Pages.PageSize | web/web.go:990-1002 | Every page but the last shows ten files, and no page is empty unless the queue is. |
| Tables.EffectIsConsistent | repo/sqlite/list.go:229-548 | Every operation on an existing list keeps: unique addresses, no list with a bounce address, no list as its own member or known sender, no row without a list. |
| Tables.RunsAreConsistent | repo/sqlite/list.go:229-548 | This holds in every state of every run, whatever statements fail. |
| Tables.AddedRows | repo/sqlite/list.go:396-422 | After adding, exactly the rows from before and one for each address other than the one of the list are there, the latter with the given flags; nothing else changes. |
| Tables.RemovedRows | repo/sqlite/list.go:435-458 | After removing, exactly the rows that are not for one of the addresses on this list are there, as they were; nothing else changes. |
| Tables.StaleHandle | repo/sqlite/list.go:396-422 | Adding rows with any handle keeps the tables consistent if and only if the id of the handle belongs to a list and no address that the handle lets through is the address of that list. |
| Tables.ReusedId | repo/sqlite/list.go:50-62 | If the id of a deleted list was given to another list, the old handle can make that list its own member. |
| Tables.AddressesAreApart | repo/sqlite/list.go:230-255 | No posting address is a bounce address, and no two lists share either. |
| ListDBs.ListDB.Create | repo/sqlite/list.go:229-255 | On success exactly the new list is added, at a free address that is no bounce address, under the given name; it moderates unknown senders, lets all others pass, is not public and hides nobody; an error adds nothing, or exactly the requested list if it could not be read back. |
| ListDBs.ListDB.GetList | repo/sqlite/list.go:258-271 | The list with the given posting address, if any. |
| ListDBs.ListDB.IsList | repo/sqlite/list.go:273-276 | Whether there is a list with the given address. |
| ListDBs.ListDB.GetMembership | repo/sqlite/list.go:318-333 | The flags of a member, or none. |
| ListDBs.ListDB.MembersWhere | repo/sqlite/list.go:550-566 | Exactly the members of the list that have the flag, each once. |
| ListDBs.ListDB.AddMembers | repo/sqlite/list.go:396-422 | All or nothing: on success every given address other than the one of the list is a member with the given flags, every other row is as before, and the result is these addresses. |
| ListDBs.ListDB.RemoveMembers | repo/sqlite/list.go:435-458 | All or nothing: on success none of the given addresses is a member any more, every other row is as before, and the result is the input. |
| ListDBs.ListDB.UpdateMember | repo/sqlite/list.go:424-433 | On success an existing member has the given flags; nobody is added or removed, and nobody else changes. |
| ListDBs.ListDB.AddKnowns | repo/sqlite/list.go:460-486 | All or nothing: on success exactly the given addresses other than the one of the list are known in addition. |
| ListDBs.ListDB.RemoveKnowns | repo/sqlite/list.go:499-522 | All or nothing: on success exactly the senders other than the given ones are still known. |
| ListDBs.ListDB.Delete | repo/sqlite/list.go:524-548 | The list and exactly its own member and known rows are gone, or nothing has changed. |
| ListDBs.ListDB.Update | repo/sqlite/list.go:296-311 | On success the list has the given display name and settings, and keeps its id, address and key; other lists do not change. |
| Deciding.GetRoles | ulist.go:183-207 | The roles of an address: moderator or member, and known. |
| Deciding.GetAction | list.go:94-142 | The loops and the early exit compute the decision, with a reason that is true; a list that lets everybody pass needs no lookup. |
| Deciding.FindSpam | mailutil/header.go:32-40 | A message is spam if and only if one of three fields begins with "true" or "yes". |
| Deciding.SpamMarks | mailutil/header.go:14-40 | These are X-Spam, X-Spam-Flag and X-Spam-Status; case and leading white space do not matter. |
| Deciding.DecidedIsMaximum | list.go:90-142 | Told from the rows of the tables: an address that is known, a member or a moderator earns the action of the list for it; the decision is the maximum of what the From addresses earn and the action for unknown senders, lowered from Pass to Mod by a spam mark. |
| Deciding.PassIsMaximal | list.go:96-100 | The early exit agrees with the maximum. |
| Deciding.OrderDoesNotMatter | list.go:104-129 | Order, repetition and display names of From addresses do not matter. |
| Deciding.DecidedIsMonotone | action.go:12-17 | Raising any configured action never lowers the decision. |
| Deciding.NewListDecides | repo/sqlite/list.go:229-251 | With the settings of a new list, messages from members, moderators and known senders pass unless they are marked as spam, and all others are moderated. |
| Macs.CreateTag | list.go:67-88 | The bytes are fed to the MAC part by part; an empty or all-zero key is refused. |
| Macs.MacInputIsInjective | list.go:78-85 | The authenticated bytes determine the list, the address and its presence, and the timestamp. |
| Ulists.ValidTagWasIssued | list.go:48-65 | A tag that validates belongs to an issued link of the same list, address and timestamp. |
| Ulists.FaithfulExists | mailutil/address.go:81-91 | Splitting at the last @ and writing in lower case undoes printing without quotes, so that what is assumed of the library can be met. |
| Ulists.Ulist.IssueLink | ulist.go:300-320 | A link for joining or leaving is issued for this list, address and time, if there is a web interface and the key is usable. |
| Ulists.Ulist.Notify | ulist.go:323-331 | One mail to the recipient from the bounce address of the list, with the given subject and body. |
| Ulists.NotificationSays | ulist.go:323-331 | A notification goes to its recipient alone, with the recipient in To, the list in From, the subject behind a prefix, and no other fields than these, Content-Type and Message-Id. |
| Ulists.Ulist.SendJoinCheckback | list.go:144-188 | Refused exactly if a request for this list and address is recorded as recent; without a problem a link and one mail go exactly to a non-member, and exactly then the request is recorded; a failing database leaves no trace. |
| Ulists.Ulist.SendLeaveCheckback | list.go:190-238 | The same for leaving; the mail is sent, and recorded, exactly for members. |
| Ulists.AskedForEver | list.go:148-153 | Who was asked is not asked again, at any later time; exactly when the clock is set back by seven days or more, asking is possible again. |
| Ulists.AnswerGoesTo | list.go:156-184 | Nobody but the address in question gets a link or a mail; without a problem the mail goes out exactly if the address is no member and asks to join, or is a member and asks to leave. |
| Ulists.Ulist.Forward | ulist.go:209-294 | At most one mail, from the bounce address to exactly the receivers, with the rewritten header, and without a footer with exactly that header and the same body; no error means that it went out. The header is refused if and only if From cannot be parsed though it is needed. |
| Ulists.Ulist.RewrittenHeader | ulist.go:212-272 | The header is exactly the one of the list: List fields, new Message-Id, subject, munged From and Reply-To, no signature, no Sender, no spam mark. |
| Forwarding.ForwardedAs | ulist.go:209-294 | A forwarded message goes to exactly the members who receive mail, each once. A list that hides senders puts its own address into From and clears Reply-To; any other list puts itself into From once for each sender, "via" behind the shown name, and the senders into Reply-To. Sender and Dkim-Signature are cleared, spam marks are dropped, the List fields, Message-Id and Subject are those of the list, and all other fields are those of the message. |
| Forwarding.ForwardedInPrint | ulist.go:212-272 | In print: no Sender, no Dkim-Signature, no spam mark; From is the one of the list, and Reply-To is not printed if senders are hidden. |
| Ulists.Ulist.NotifyMods | ulist.go:333-365 | One notification for every moderator in order, whichever of them fail; no error means that all went out. |
| Ulists.Ulist.AddMembers | ulist.go:383-431 | Members are added by one transaction, and exactly those who were added are welcomed; no error means that both succeeded. |
| Ulists.Ulist.RemoveMembers | ulist.go:448-496 | Members are removed by one transaction, and they are notified; no error means that both succeeded. |
| Ulists.Ulist.NotifyAll | ulist.go:401-417 | One notification for every address in order, whichever of them fail; the result tells whether all went out. |
| Ulists.WelcomesGoTo | ulist.go:401-417 | Every address gets one mail alone, in this order. |
| Ulists.Ulist.Save | mod.go:56-75 | On success a new file with the saved text and no other change; on failure no change, or a left-over file if the cleanup failed. |
| Ulists.Ulist.ReadMessage | mod.go:29-38 | Reading succeeds exactly if nothing fails outside and the file of the list exists and can be parsed, and gives its message. |
| Ulists.Ulist.DeleteModeratedMail | mod.go:77-82 | Removes exactly that file, or nothing if the name is empty, the file is missing, or the operation fails. |
| Ulists.Ulist.IsListOrBounce | ulist.go:84-87 | Yes for posting and bounce addresses of lists. |
| Lmtp.LmtpSession.Mail | lmtp.go:63-75 | Starts a transaction without lists, as a bounce notification exactly if the sender is blank. |
| Lmtp.BlankIs | lmtp.go:70-72 | The blank senders are those of white space alone. |
| Lmtp.LmtpSession.Rcpt | lmtp.go:86-117 | Without a database error a recipient is accepted if and only if it is a list, through its bounce address exactly for bounce notifications; exactly the list with that address is added. |
| Lmtp.LmtpSession.CheckRecipients | lmtp.go:166-197 | Passes exactly if To and Cc can be parsed and every list is in one of them. |
| Lmtp.LmtpSession.CheckLoops | lmtp.go:199-213 | Passes exactly if every List-Id can be parsed and names none of the lists. |
| Lmtp.LmtpSession.ProcessBounce | lmtp.go:219-243 | A bounce is passed on in one mail with empty envelope sender to exactly the bounce notifieds, with its body and its subject; only a database error prevents this. |
| Lmtp.LmtpSession.ProcessCommand | lmtp.go:245-291 | Join and leave by mail: a confirmation mail to the one From address, or a refusal, as decided. |
| Lmtp.LmtpSession.ProcessPost | lmtp.go:293-332 | Rejected, forwarded or stored as decided; the joined header changes neither the decision nor what is stored, and nothing else enters the queue. |
| Lmtp.LmtpSession.Data | lmtp.go:133-336 | If a check fails nothing happens; else the lists are dealt with in order, each by what was decided for it, until the first error; the queue only grows, by one file for each storing, which holds what was delivered, or by what is left over of it when storing failed. |
| Dispositions.ChecksPassExactly | lmtp.go:164-213 | The checks before anything is done pass if and only if there is a list, and (unless it is a bounce) To and Cc can be read and the mailbox of every list is in one of them, and every List-Id can be read and is no list of the transaction. |
| Dispositions.PostsAreDisposed | lmtp.go:293-332 | For every list of every transaction, whatever fails: a post is forwarded only if the decision is to pass, and enters the queue only if it is to moderate; without an error it is then forwarded in one mail, or stored in one file of which exactly the members with the notify flag are told, each once; it is never dealt with if it is to be rejected. |
| Dispositions.CommandsAreDisposed | lmtp.go:245-291 | Join and leave by mail: events concern the only sender, who is no member of a list with public signup, or is a member; exactly this sender is asked to confirm. Without a Sender field, whoever may ask is asked unless something fails. |
| Dispositions.BouncesAreDisposed | lmtp.go:219-243 | A bounce goes on in one mail with empty envelope sender, its body and its subject, to exactly the members with the bounces flag, each once; or the database failed and nothing has happened. |
| Dispositions.SenderlessIsRefused | lmtp.go:251-303 | A message without readable senders is refused, and nothing happens for any list. |
| Dispositions.DeliveredAs | lmtp.go:316-319 | What is forwarded of a delivery has the form that `Forwarding.ForwardedAs` states. |
| Lmtp.DecideAfterJoining | lmtp.go:245-303 | The decision does not depend on whether an earlier list has had the message saved. |
| Lmtp.TransactionsAreDisciplined | lmtp.go:217-243 | A bounce notification is sent to bounce notifieds with empty envelope sender and nothing else is sent; every other transaction only uses bounce addresses as envelope sender. |
| Lmtp.RefusalEndsTransaction | lmtp.go:217-336 | Nothing happens for a list that refuses the message or for the lists behind it. |
| Routing.RoutingAgreement | lmtp.go:95-112 | An address is routed to the server if and only if some envelope sender makes RCPT TO accept it. |
| Routing.AnswerAgrees | sockmap/srv.go:106-144 | The socketmap service answers OK to a well-formed request exactly in this case. |
| Routing.AnswerTells | sockmap/srv.go:114-144 | The answer to any netstring with a space in it: what stands behind the first space is not found if it is an asterisk, no address or not served, is found if it is served, and a failure of the database is temporary. |
| Routing.MalformedIsRefused | sockmap/srv.go:106-121 | What is no netstring, or has no space, is refused for good. |
| Routing.ServeLookup | sockmap/srv.go:106-144 | The service computes the answer from `IsListOrBounce`, or from its failure. |
| Routing.BounceAddressLeadsBack | listinfo.go:23-27 | The bounce address of a list leads back to this list, for bounce notifications only. |
| Routing.PostingAddressLeads | lmtp.go:95-114 | The posting address leads to the list, for everything else. |
| Routing.ForwardedMailIsRefused | lmtp.go:199-213 | A forwarded message that is printed, read and delivered to its list again does not pass the checks, if its values are not blank and its List-Id keeps within the hard limit. |
| Webs.Web.Validate | list.go:48-65 | Exactly the tag of this list, address and timestamp is valid, if it is not too old. |
| Webs.LinksServeBoth | list.go:67-88 | A link that was issued for joining is valid for leaving, and the other way round. |
| Webs.Web.AskJoin | web/web.go:1072-1116 | For public lists only: a user who is logged in gets the link at once; else the mail goes to the given address exactly if this is no member, unless it was asked before or something fails. |
| Webs.Web.AskLeave | web/web.go:1164-1219 | A member who is logged in gets the link at once; else the mail goes to the given address exactly if this is a member, unless it was asked before or something fails, which the answer does not tell. |
| Webs.Web.ConfirmJoin | web/web.go:1221-1266 | Joining needs a valid link, a non-member and a click on the button; then exactly this address is a member in addition, who receives and has no other right, one welcome mail is sent and it is recorded; else tables and trace stay. With `Valid()`: only after a link was issued for list and address within seven days. |
| Webs.Web.ConfirmLeave | web/web.go:1268-1313 | The same for leaving: exactly this address is no member any more, and one goodbye mail is sent. |
| Webs.Web.AddKnownSender | web/web.go:862-870 | Exactly the single From address becomes a known sender, if known senders get the treatment of the message; the tables do not change in any other way. |
| Webs.Web.ModEntry | web/web.go:844-896 | What one entry of the form does: at most its own file goes, if it was to be deleted or after it was forwarded; nothing is sent but its message, once, if it was to be passed; at most its sender becomes known, if asked for; and it crashes if and only if it asks to add the sender of a message that is to be deleted and was not read. Without a failure outside the program all this happens whenever it can. |
| Webs.Web.Mod | web/web.go:834-896 | The request is a sequence of such entries, each key of the form once, in any order; the counters count them; it crashes if and only if its last entry does, and else deals with the whole form. |
| Moderations.ModKeepsQueue | web/web.go:842-896 | Over one request, a file leaves the queue only if delete was chosen for it or its message was forwarded. |
| Moderations.ModMail | web/web.go:871-885 | Every mail of a request forwards the message of an entry that was to be passed, and different mails belong to different entries. |
| Moderations.CrashesExactly | web/web.go:862-863 | Without a failure outside the program, the request crashes if and only if the form asks to add the sender of a message that is to be deleted and whose file is missing or cannot be parsed. |
| Moderations.CrashingForm | web/web.go:862-863 | A form with one entry that crashes, whatever fails. |
| Moderations.OrderOfEntriesDoesNotMatter | web/web.go:842-896 | Without failure and crash, exactly the files that were to be deleted, or were to be passed and can be, are gone, and exactly the senders asked for are known, in whatever order the entries were visited. |
| Moderations.SenderIsTreatedAlike | web/web.go:862-894 | A sender who becomes known with a message that is passed is let pass from then on, unless there is a spam mark; one who becomes known with a message that is deleted is not treated any better. |
| Moderations.NoMessageIsLost | web/web.go:842-896 | Over every run, a message that is no longer in the queue has not changed before it left, and a moderator of its list has deleted it, or has passed it and this very message was forwarded. |
| Moderations.EveryFileWasDelivered | lmtp.go:320-331 | Over every run, a message that is in the queue and was not there in the beginning was delivered to a list with this id and decided to be moderated, or is the left-over of such a delivery. |
| Moderations.PassedAsDelivered | web/web.go:871-896 | The message that a moderator passes prints the fields of the delivered one as they are read back, the same text if and only if saving it is a fixed point, and the same fields if its words keep within the hard limit. |
| Runs.PresentedIsUnforged | list.go:48-65 | Whoever can only replay issued tags or make up bytes presents no forgery that validates. |
| Runs.AskedRowsAreGood | web/web.go:862-894 | The known senders that moderators add keep the tables consistent. |
| Servers.Server.ServeConfirm | web/web.go:1221-1313 | A confirmation adds or removes exactly its own member, and is recorded, or does nothing; only issued tags and made-up ones can be presented. |
| Servers.Server.ServeAll | ulist.go:89-181 | For every sequence of mail commands, web requests and administrative requests, whatever fails: in every state the tables are consistent and double opt-in holds, a delivery is taken for a bounce if and only if the sender of its transaction is blank, every request does nothing to the tables or the whole of its own operation, and every step changes the queue and sends mail only as the statements about runs need it. |
| Runs.EveryMailHasItsReason | ulist.go:286-331 | Over every run, every mail is a notification about a list, a bounce that came in, a message that came in and was decided to pass, or a message of the queue that a moderator passed; an empty envelope sender is only used for bounces that came in. |
| Runs.PassedWasDelivered | web/web.go:871-885 | Over every run that begins with an empty queue, a message that a moderator passes was delivered before to a list with the same id and decided to be moderated. |
| Runs.MembershipHasItsReason | web/web.go:1221-1313 | Over every run, whoever has become a member was added by an administrative request for this address, and whoever has ceased to be one was removed by such a request or with the list; or did so by following a link that was issued for this list and address within seven days. |
| Runs.ConfirmationIsDone | web/web.go:1221-1313 | Over every run, a confirmation that was recorded has been done: its address has joined, with the right to receive and no other, or has left, and nothing else in the tables has changed. |
| Runs.KnowingHasItsReason | web/web.go:862-894 | Over every run, whoever has become or ceased to be a known sender did so by an administrative request for this address or list, or as the only sender of a message in the queue for whom a moderator has ticked this while known senders get the treatment of the message. |

## Left out

- Parsing and quoting of addresses, MIME words, multipart bodies, templates, SQL, HMAC-SHA-256: parameters, or nothing is said about their results.
- `InsertFooter`: it may change the body and the three fields that describe it, or fail; how it changes them is left open.
- `Ulists.Ulist.Forward`: with a web interface the body that is sent is left open, because it has the footer.
- `Ulists.Ulist.AddMembers`: a welcome text that cannot be produced from its template is not modelled, nor an error of the GDPR log.
- `Ulists.Ulist.RemoveMembers`: the same for the goodbye text.
- `Ulists.Ulist.DeleteModeratedMail`: only plain names; the source hands any name to the file system.
- White space and letters beyond ASCII, which Go's `TrimSpace`, `ToLower` and `EqualFold` also treat.
- Writers that recover: a sink that failed once is taken to fail from then on.
- Blank header values: nothing is claimed about the rest of a header in which several values are blank, or the last one is.
- Several LMTP sessions at the same time: `Servers.Server` has one.
- Concurrency: operations happen one after the other, and the tables do not change while one of them runs, except by itself.
- `ListDBs.ListDB.Update`: works on list values and returns the changed list, where the source updates the fields of the list in place; two holders of one list are not modelled.
- `ListDBs.ListDB.MembersWhere`: does not state the order by address.
- File names with path separators or "..": names of the queue are plain names.
- The calendar: seven days are 7 * 86400 seconds, without daylight saving.
- Log ids, logging, the GDPR log, notifications on web pages, sessions, logins, captchas, permissions of web users, sockets, the limit of 500 bytes for a socketmap request, and the limits on recipients and message sizes.
- `RFC6068URI`, `NewMessageId`, `PrefixSubject` and link URLs: parameters or arbitrary strings.
- Loops through two or more lists: forwarding replaces List-Id, so only the direct return to a list is detected.
