# Proved properties of wk's protocols and in-place algorithms

This project models, in Dafny, the parts of the repository where a small amount
of code carries a hard promise, and proves the promise for every input, every
run or every interleaving. Code that changes things in place is modelled as
methods with loops over arrays, classes with mutable fields, or reassigned
sequences; each such method is proved equal to a specification function, and
the lemmas are about that function.

| part | modules | what it is |
|---|---|---|
| DNS names and messages | `DnsNames`, `Resolver`, `DnsStub`, `DnsAgreement`, `DnsMessages` | the resolver shim's name encoder, query builder and compressed-name expander; the stub server's own decoder and reply writer; what the two owe each other (RFC 1035, sections 2.3.4, 3.1 and 4.1.1 to 4.1.4) |
| the uplink | `Uplink`, `UplinkProtocol` | one uplink's connection list and dialer turn; two uplinks as a step system with closes in flight (RFC 9000, section 10.2) |
| the kilo editor | `KiloText`, `KiloScreen`, `KiloFile`, `KiloRender`, `Kilo` | rows shifted in place against one flat string; load and save; tab expansion and the cursor column |
| pipes | `Pipes` | two levels of reference counts under libc's descriptor table |
| the file stack | `ZipIndex`, `ZipTree`, `ZipFs`, `FuseShim`, `ZipNode` | the zip daemon's index, listings and one-slot cache; the shim's handle table; the two together |
| the scaler | `Letterbox` | 16.16 fixed-point letterboxing into a staging buffer |
| the note's wrap | `WordWrap` | greedy word wrap for any measure |
| the clipboard | `Clipboard` | boards with sequence numbers against the host clipboard |

`Outcomes` holds the shared datatypes. A `Byte` is an unsigned char, a
`CString` is what a `char *` points at without its NUL.

## What turned out to need a condition

Each is an exact condition, proved both ways, or a condition together with an
input or a run that fails without it.

* The encoder accepts a text exactly when it spells a name of legal labels that
  fits. A text may close with one dot or, as the code has it, with two
  (`Resolver.EncodeAccepts`).
* The text of an expanded name encodes to that name's wire form exactly when
  its labels hold no dot and no NUL, it has at most 253 bytes and there is
  room; the expander itself prints up to 255 (`DnsAgreement.ExpandThenEncode`,
  `DnsAgreement.ExpandedButNotEncodable`).
* The stub compares the printed name up to its first NUL. For every name, it
  takes it for the zone exactly when it is wk.test in some letter case, or has
  the dot inside its first label, which is alone or holds a NUL, or is "wk" and
  a label that reads "test" up to a NUL (`DnsAgreement.ZoneExactly`,
  `DnsAgreement.FalseClaims`, `DnsAgreement.ZoneLookalikes`).
* A reply of the stub reads to its last byte, by all four counts of its header,
  exactly when the datagram announced one question and no authority or
  additional record; only the answer count is the stub's own
  (`DnsMessages.ReplyWellFormed`).
* Joining two rows adds the column offset to the cursor. Over every run of
  typing, line breaks, deletions and arrows, a key does what it means unless it
  joins rows, or steps left at the start of one, with a negative offset; the
  offset becomes negative exactly by a join onto a row more than one longer
  than the window is wide; nine keys in a new editor get there, and two more
  write outside the row (`KiloScreen.KeyMeant`, `KiloScreen.OffsetTurnsNegative`,
  `KiloScreen.RunMeant`, `Kilo.Editor.JoinMissesTheText`).
* The arrow left at the top of a scrolled window puts the cursor's line above
  it; then, and only then, the arrow up on the first row reads above the rows,
  which three keys in a new editor of one line do
  (`KiloScreen.LineTurnsNegative`, `KiloScreen.InsideExactly`,
  `Kilo.Editor.UpLeavesTheRows`).
* Every key keeps the cursor inside the window exactly unless it steps left out
  of the window's top, or joins onto a row longer than the window is wide
  (`KiloScreen.WindowKept`).
* Drawing the cursor reads only inside the row exactly when the offset is not
  negative or nothing stands left of the cursor (`KiloRender.CursorColumn`).
* Typing or breaking a line and then deleting restores text and cursor exactly
  when the cursor stood on text; a line break below the row after the last
  changes nothing at all (`KiloText.DeleteUndoesInsertChar`,
  `KiloText.DeleteUndoesInsertNewline`).
* The rendering's allocation multiplies the tabs by eight in 32 bits, so it is
  large enough exactly below 2^29 tabs (`KiloRender.AllocationSuffices`,
  `KiloRender.AllocationFallsShort`). The index that counts the rendering is an
  int. A row is rendered exactly when it passes the length check and its
  rendering is shorter than INT_MAX, or ends there without a tab; rows of 2^28
  tabs and more have memory enough and no index (`KiloRender.RenderRow`,
  `KiloRender.IndexFallsShort`, `KiloRender.LongestPlainRow`).
* Saving and opening restores exactly the rows that hold no newline; opening
  and saving is the identity on exactly the files that are empty or end in one
  (`KiloFile.LoadUndoesSave`, `KiloFile.SaveUndoesLoad`).
* The word wrap is lossless for every measure exactly when no word but the last
  is empty (`WordWrap.LosslessExactly`).
* The scaled image fills the surface on an axis exactly when that axis'
  quotient reaches the surface and fits 32 bits (`Letterbox.FillsExactly`,
  `Letterbox.OverflowHidesImage`).
* When the image is enlarged its last column or row need not be shown, since the
  extent is rounded down: column i is shown exactly when `i * 2^16` is at most
  the scale times the extent less one (`Letterbox.LineShownExactly`,
  `Letterbox.AllLinesShownExactly`, `Letterbox.LastColumnLost`).
* The request for the staging buffer wraps around in a 32-bit `size_t`. Where
  there is anything to draw, every pixel is written in its own place inside the
  buffer exactly when `sw * sh * 4 < 2^32` (`Letterbox.DrawnInPlaceExactly`,
  `Letterbox.WrapsToNothing`). Byte offsets wrap as well, so pixels can also
  land inside the buffer in a wrong place (`Letterbox.WrapsInside`).
* A board's own copy of a new text raises its number exactly once if and only
  if no poll and no later copy of its own shows it another text. Whatever the
  text, and whatever the board has seen, the number rises at most once while
  the host holds it; two boards that copy before the same pump cost the first
  one two numbers (`Clipboard.OwnCopyRaisesOnce`,
  `Clipboard.OwnCopyAtMostOnce`, `Clipboard.OverwrittenAtOnce`).
* Equal numbers mean equal texts for a guest that stays at one board. A guest
  whose wire moves, or whose clipboard node is deleted and restored and so has
  a new board, can read two texts under one number
  (`Clipboard.SameNumberSameText`, `Clipboard.MovedWireMisleads`,
  `Clipboard.RenewedNodeMisleads`).

## How to read the parts

**DNS.** `DnsNames.NameAt` is section 4.1.4 as a recursive definition, with
pointers that must aim strictly below where the piece being read began, and
`Span` is what the name takes up at its start. The expander is a loop over
`p` and `limit` that is proved to compute exactly this. `Resolver.EncodeFrom` follows
the encoder's text scan; `DnsNames.Parse` is the independent grammar.

**Uplinks.** `UplinkProtocol.Apply` is one atomic step of one of two parties:
a command, a dialer turn, a handshake, an accept, the failure of either, a
delivered close, a broken connection, a dropped uplink. A step that is not
enabled changes nothing, so a run is any sequence of steps. The dialer turn and
the registration are the functions `Uplink.Turned`, `Uplink.ToDial` and
`Uplink.ListWith` that the imperative `Uplink.Link` is proved against. The two
tasks share the list under a lock, so a stretch under the lock is one step. A
dialer turn takes the lock twice only when it undials, and then the second
stretch finds no target and does nothing, whatever the accept loop has done in
between (`UplinkProtocol.CheckAfterUndialIdle`). A close that arrives while the
list is scanned is seen or not, connection by connection; closes of different
connections are separate steps, so those seen count as delivered before the
scan and the others after it.

**Kilo.** `KiloText.Doc` is rows with the logical cursor (row `rowoff + cy`,
column `coloff + cx`), and `Flat` is every row followed by a newline.
`KiloScreen.Screen` adds the window: the column offset, the cursor's line,
which may lie above the window, and the size. Rows keep their byte buffers and
sizes, `memmove` and `realloc` are modelled on those buffers, and the class
`Kilo.Editor` has the editor's fields. Each editing method says whether its
accesses stay inside the row's buffer, and what it does when they do.

**Pipes.** Memory is a map from addresses to structs, so that freeing is
removal, and using freed memory or dropping a dead handle cannot verify. libc's
table picks the descriptors; which one, or none, is a parameter of each call.

**Files.** A member's paths are its own, stripped of leading `./` pairs and of
one closing slash, and every prefix before a slash. Extraction is a function
from member to bytes or failure; whether the archive is found, and is one, is a
parameter of each request (`ZipFs.Found`). The shim's table is a map from
handles to open files; a run of requests is replayed on that map.

**Letterbox.** A pixel is four bytes moved together. Quotients, the staging
buffer's size and byte offsets are truncated as the code truncates them. From
the first pixel out of its place on, nothing is said (`Letterbox.Astray`).

**Clipboard.** `Clipboard.World` holds what one pump finds: the clock, which
writes the host accepts, what other programs write between draining and
polling, whether the host can be read. `Clipboard.Office` adds the guests and
the board each is pointed at.

## Model

| member | source | states |
|---|---|---|
| `Resolver.EncodeAccepts` | plugins/resolv-compat/resolv.c:120-159 | a text is accepted exactly when it spells, with no, one or two closing dots, a name of labels of 1 to 63 bytes whose wire form fits both the buffer and 255 bytes; the result is then that wire form |
| `Resolver.EncodeParsed` | plugins/resolv-compat/resolv.c:124-157 | text that parses as a name is encoded by the size of its wire form alone: the wire form if it fits, else ENOSPC or EINVAL as the code orders its tests |
| `Resolver.EncodeUnparsed` | plugins/resolv-compat/resolv.c:124-157 | text that does not parse is always refused, and as malformed whenever the buffer is ample |
| `Resolver.Endings` | plugins/resolv-compat/resolv.c:124-157 | a name that fits is accepted with no, one and two closing dots; the empty text and a lone dot are the root, two lone dots nothing |
| `Resolver.EncodeLabels` | plugins/resolv-compat/resolv.c:126-149 | the label loop leaves in the buffer exactly the bytes the specification adds before the root label, or its errno; nothing outside the given window changes |
| `Resolver.EncodeQname` | plugins/resolv-compat/resolv.c:120-159 | the whole encoder: bytes in place and their count, or the errno, and no write outside the given window |
| `Resolver.State.ResNmkquery` | plugins/resolv-compat/resolv.c:161-200 | the query's header, question, type and class byte for byte, every errno, no write past the buffer's length, and the id advancing modulo 2^16 even when the name is refused |
| `Resolver.ExpandLabel` | plugins/resolv-compat/resolv.c:399-415 | one label: appended with its dot, or the name as a whole does not read and fit; the rest of the name is what remains to be read |
| `Resolver.DnExpand` | plugins/resolv-compat/resolv.c:361-426 | terminates for every message, offset and size; succeeds exactly when the recursive definition of a compressed name with strictly backward pointers reads a name that prints within the limits; yields its dotted text and the bytes consumed at the start only; stays within message and destination |
| `DnsNames.ParseSound` | plugins/resolv-compat/resolv.c:124-149 | what the grammar reads from a text is a name of legal labels which that text spells |
| `DnsNames.ParseComplete` | plugins/resolv-compat/resolv.c:124-149 | every spelling of a name of legal labels is read as that name |
| `DnsNames.WireReads` | plugins/resolv-compat/resolv.c:361-426 | wherever an uncompressed wire form stands in a message, both readers find its name and its extent |
| `DnsNames.PointerReads` | plugins/resolv-compat/resolv.c:383-394 | labels, then the two bytes of a fourteen-bit offset at which a name is written out: read as those labels and that name if the offset is before the compressed name, unreadable if not; it takes up the labels and two bytes |
| `DnsNames.NoName` | plugins/resolv-compat/resolv.c:378-410 | reserved label types, labels and pointers cut off by the message's end, and the end itself are no name; a zero byte is the root |
| `DnsNames.PlainIsWire` | plugins/dnsstub/dnsstub.c:47-67 | whatever is read without compression stands in the message as that name's wire form |
| `DnsStub.ReadQname` | plugins/dnsstub/dnsstub.c:47-67 | succeeds exactly when an uncompressed name is there and its text fits; leaves the lower-case text with its NUL and returns the offset behind the wire form |
| `DnsStub.PutU16` | plugins/dnsstub/dnsstub.c:69-74 | two bytes, high first, and nothing else changed |
| `DnsStub.PutRrHead` | plugins/dnsstub/dnsstub.c:78-89 | the nineteen bytes of the owner wk.test, type, class IN, TTL 60 and a zero length, and nothing else changed |
| `DnsStub.PutRecord` | plugins/dnsstub/dnsstub.c:136-170 | a whole record with its length patched in afterwards |
| `DnsStub.HandleDatagram` | plugins/dnsstub/dnsstub.c:116-176 | for every datagram: dropped exactly when it holds no whole question the stub can hold, else the reply's bytes, which fit the 1500-byte buffer |
| `DnsStub.WriteReply` | plugins/dnsstub/dnsstub.c:127-176 | header, question and answer as the specification lays them out, from any buffer contents |
| `DnsStub.ReplyHeader` | plugins/dnsstub/dnsstub.c:127-175 | everything up to the end of the question is echoed but for the flags, the response code and the answer count |
| `DnsAgreement.EncodeThenExpand` | plugins/resolv-compat/resolv.c:120-426 | an encoded name, at any place in any message, reads back as that name, takes up exactly its bytes, and prints exactly when its dotted text fits |
| `DnsAgreement.CompressedExpands` | plugins/resolv-compat/resolv.c:361-426 | such a compressed name expands if and only if the offset is before it and the text of all labels fits the buffer and 255 bytes, to all labels, consuming the labels and the pointer |
| `DnsAgreement.PrintedLabels` | plugins/resolv-compat/resolv.c:398-419 | the text of a name: its labels with dots between them, the root as a dot |
| `DnsAgreement.ExpandThenEncode` | plugins/resolv-compat/resolv.c:120-426 | the C text of any expanded name encodes to that name's uncompressed wire form if and only if its labels hold no dot and no NUL, it has at most 253 bytes and the buffer has room |
| `DnsAgreement.ExpandedButNotEncodable` | plugins/resolv-compat/resolv.c:404-411 | a message whose name expands to 254 bytes of text that no buffer makes encodable |
| `DnsAgreement.CodecsAgree` | plugins/dnsstub/dnsstub.c:120-125 | for every name the query builder accepts and every 16-bit type, the stub's decoder at offset 12 reads that name, ends four bytes before the query's end and finds that type there |
| `DnsAgreement.QueryFields` | plugins/resolv-compat/resolv.c:175-198 | a query field by field: id, RD and no other flag, one question and no record, the name, type and class modulo 2^16 |
| `DnsAgreement.ReplyParses` | plugins/dnsstub/dnsstub.c:116-176 | behind the id and the question of the query, the announced number of answers as `dn_expand` and RDLEN delimit them ends with the reply's last byte; all are owned by wk.test |
| `DnsAgreement.ReplyFlags` | plugins/dnsstub/dnsstub.c:127-136 | a reply is an authoritative response under the query's id, RD echoed, the other flags and the opcode zero, its code 0 for the zone and 3 else |
| `DnsAgreement.ServedRecords` | plugins/dnsstub/dnsstub.c:136-170 | one record for each of four types, of the type asked, its data in that type's form: four address bytes, preference 10 and a name, a counted text, a name |
| `DnsAgreement.QueryAnswered` | plugins/dnsstub/dnsstub.c:116-176 | every query that can be built is answered under its id, with the records of the type asked if and only if the name is wk.test in some letter case, and with NXDOMAIN if and only if it is not |
| `DnsMessages.ReplyWellFormed` | plugins/dnsstub/dnsstub.c:116-176 | every reply reads to its last byte by all four counts of its header if and only if the datagram announced one question, no authority and no additional record |
| `DnsMessages.QueryWellAnswered` | plugins/dnsstub/dnsstub.c:116-176 | every query that can be built announces just that, so its reply is a well-formed message |
| `DnsMessages.AnsweredExactly` | plugins/dnsstub/dnsstub.c:116-125 | a datagram with a name written out at offset 12 is answered if and only if the name prints in 255 bytes and four more bytes follow |
| `DnsMessages.NotAnswered` | plugins/dnsstub/dnsstub.c:116-125 | and one with no such name is dropped |
| `DnsAgreement.TargetsExpand` | plugins/dnsstub/dnsstub.c:142-170 | the names inside MX and NS data expand in place, to the end of the record |
| `DnsAgreement.ZoneExactly` | plugins/dnsstub/dnsstub.c:47-134 | for every name whatsoever, the zone test holds if and only if it is wk.test in some letter case, or one of the two look-alikes: the dot inside a first label that is alone or cut by a NUL, or "wk" before a label that reads "test" up to a NUL |
| `DnsAgreement.FalseClaims` | plugins/dnsstub/dnsstub.c:134-136 | every answerable datagram that is not about wk.test is answered as if it were exactly when its name is a look-alike, which always has an illegal label; wk.test itself is never denied |
| `DnsAgreement.LegalZone` | plugins/dnsstub/dnsstub.c:134 | over legal labels the zone test holds exactly of wk.test in any letter case |
| `DnsAgreement.ZoneLookalikes` | plugins/dnsstub/dnsstub.c:47-67 | one name of each kind that passes the zone test and is not wk.test |
| `DnsAgreement.CaseFolded` | plugins/dnsstub/dnsstub.c:60-64 | two texts have one lower-case form if and only if they differ in the case of letters at most, and it holds no capital |
| `Uplink.Link.Register` | crates/wk-fabric/src/uplink.rs:177-183 | the new entry comes last, behind exactly the entries without a close reason, in their order |
| `Uplink.Link.Undial` | crates/wk-fabric/src/uplink.rs:248-258 | exactly the dialed entries are closed and removed; the inbound ones keep place and order |
| `Uplink.Link.Peers` | crates/wk-fabric/src/uplink.rs:156-163 | the number of listed connections without a close reason; positive exactly if there is one |
| `Uplink.Link.Turn` | crates/wk-fabric/src/uplink.rs:240-273 | a dialer turn: the target set or cleared, an undial when cleared, and a connect to the target if and only if there is one and every listed connection has closed |
| `Uplink.DialsExactly` | crates/wk-fabric/src/uplink.rs:264-270 | a connect is due, and to whom, exactly when there is a target and nothing listed is live |
| `Uplink.InboundSurvives` | crates/wk-fabric/src/uplink.rs:253-257 | a second undial finds nothing more to remove |
| `UplinkProtocol.StepKeeps` | crates/wk-fabric/src/uplink.rs:177-275 | every step of either party keeps the invariant: tags tell who dialed, a live dialed connection is listed or pending and is the only one, one-sided closes are in flight |
| `UplinkProtocol.RunKeeps` | crates/wk-fabric/src/uplink.rs:177-275 | so does every interleaving of any length |
| `UplinkProtocol.UndialClosesOwnOnly` | crates/wk-fabric/src/uplink.rs:31-43 | over all interleavings, every close an undial makes is of a connection that very side dialed |
| `UplinkProtocol.NoTargetNothingDialed` | crates/wk-fabric/src/uplink.rs:240-273 | whenever a dialer is at its select with no target, its list holds no dialed connection |
| `UplinkProtocol.AtMostOneDialed` | crates/wk-fabric/src/uplink.rs:264-273 | no side ever has two live connections that it dialed |
| `UplinkProtocol.EndsAgree` | crates/wk-fabric/src/uplink.rs:249-257 | with no close in flight, the two ends agree on whether any connection is live |
| `UplinkProtocol.QuietMeansParted` | crates/wk-fabric/src/uplink.rs:36-37 | once both dialers sit at their select with no target (or are shut down) and no close is in flight, no connection is live on either side and both count zero peers |
| `UplinkProtocol.UndialSparesInbound` | crates/wk-fabric/src/uplink.rs:490-511 | an undial leaves every connection the peer dialed live where it was live, at both ends, and in the list |
| `UplinkProtocol.CheckAfterUndialIdle` | crates/wk-fabric/src/uplink.rs:247-273 | the check behind an undial does nothing, whatever list it meets, so the lock released in between makes no other run |
| `UplinkProtocol.ReceiveDials` | crates/wk-fabric/src/uplink.rs:245-270 | a dialer at its select, told to dial and with nothing live, sets out for that target |
| `UplinkProtocol.TickRedials` | crates/wk-fabric/src/uplink.rs:262-270 | with a target and everything listed closed, every tick sets out again |
| `UplinkProtocol.LiveHoldsBack` | crates/wk-fabric/src/uplink.rs:264-270 | and with anything live, none does |
| `UplinkProtocol.Connects` | crates/wk-fabric/src/uplink.rs:177-199 | a dial, its handshake and both registrations leave one connection live and listed at both ends |
| `UplinkProtocol.DialJoins` | crates/wk-fabric/src/uplink.rs:139-148 | from any reachable state, an idle side told to dial ends up joined to the other, the target kept |
| `UplinkProtocol.UndialParts` | crates/wk-fabric/src/uplink.rs:458-484 | told to hang up, the side that dialed counts nobody at once, and the other once the close arrives |
| `UplinkProtocol.DialUndialDial` | crates/wk-fabric/src/uplink.rs:458-488 | from two new uplinks: dial, one peer on both sides; hang up, none on either; dial again, joined over a new connection |
| `UplinkProtocol.LossesTold` | crates/wk-fabric/src/uplink.rs:107 | a connection given up, or an uplink dropped, closes at this end at once and sends the other a close |
| `KiloText.InsertCharIsSplice` | plugins/kilo/kilo.c:703-721 | typing on the text inserts the byte in the flat string at the cursor's offset and moves the cursor behind it |
| `KiloText.InsertNewlineIsSplice` | plugins/kilo/kilo.c:725-758 | breaking a line on the text inserts a newline in the flat string at the cursor's offset |
| `KiloText.DeleteIsCut` | plugins/kilo/kilo.c:761-793 | deleting on the text removes the one byte before the cursor, newline or not, and moves the cursor before it; at offset zero nothing happens |
| `KiloText.DeleteUndoesInsertChar` | plugins/kilo/kilo.c:703-793 | as edits of a document, typing then deleting restores rows and logical cursor if and only if the cursor was on text |
| `KiloText.DeleteUndoesInsertNewline` | plugins/kilo/kilo.c:725-793 | breaking a line then deleting restores rows and logical cursor if and only if the cursor was on text or below the row after the last |
| `KiloText.JoinThenSplit` | plugins/kilo/kilo.c:725-793 | a delete that joined two rows is undone by a line break |
| `KiloText.TypedAnywhere` | plugins/kilo/kilo.c:661-721 | typing beyond the text adds empty rows up to the cursor's and blanks up to its column, and nothing else but the character |
| `KiloText.BrokenAnywhere` | plugins/kilo/kilo.c:725-758 | breaking a line beyond its end is breaking it at its end; below the rows one empty row is added, further below nothing |
| `KiloText.DeletedAnywhere` | plugins/kilo/kilo.c:761-793 | deleting beyond a row's end moves the cursor only, below the rows nothing |
| `KiloText.OffsetTells` | plugins/kilo/kilo.c:1112-1183 | places on the text and offsets in the flat string correspond one to one |
| `KiloText.RightIsForward` | plugins/kilo/kilo.c:1141-1155 | the arrow right goes one on in the flat string, row ends included, and from its end below the rows |
| `KiloText.LeftIsBack` | plugins/kilo/kilo.c:1119-1139 | the arrow left goes one back in the flat string, and stays at its start |
| `KiloText.UpAndDown` | plugins/kilo/kilo.c:1156-1183 | up and down lead to the same column of the row above or below, or to its end if that is shorter |
| `KiloText.BelowTheText` | plugins/kilo/kilo.c:1112-1183 | from below the rows: left to the end of the last row, up to its start, right and down nowhere |
| `KiloScreen.KeyMeant` | plugins/kilo/kilo.c:703-1183 | every key keeps the window on the file and the cursor not left of it, and does what it means if and only if it does not join rows or step left at the start of one with a negative column offset |
| `KiloScreen.MoveMeant` | plugins/kilo/kilo.c:1112-1183 | the arrows alone: along the text, over the ends of rows, up and down, and back to the end of a shorter row |
| `KiloScreen.OffsetTurnsNegative` | plugins/kilo/kilo.c:761-1183 | from a column offset that is not negative, it becomes negative exactly by a join onto a row more than one longer than the window is wide |
| `KiloScreen.LineTurnsNegative` | plugins/kilo/kilo.c:1112-1134 | the cursor's line becomes negative exactly by the arrow left at the start of the window's first row, with rows above it |
| `KiloScreen.InsideExactly` | plugins/kilo/kilo.c:1112-1183 | with a column offset that is not negative, a key touches nothing outside the rows unless it is the arrow up on the first row with the cursor's line negative |
| `KiloScreen.WindowKept` | plugins/kilo/kilo.c:703-1183 | every key keeps the cursor's line inside the window exactly unless it steps left out of its top, and the column exactly unless it joins onto a row longer than the window is wide |
| `KiloScreen.ScrollsAtTheEdge` | plugins/kilo/kilo.c:703-1183 | where in the window the cursor is after a key: it moves inside the window, and at its edge the window scrolls instead |
| `KiloScreen.RunMeant` | plugins/kilo/kilo.c:703-1183 | over every run of typing, line breaks, deletions and arrows without such a join and without such a step, nothing outside the rows is touched and rows and cursor are those meant |
| `KiloScreen.FourDeletions` | plugins/kilo/kilo.c:703-793 | nine keys in a new editor one column wide that end with two empty rows and a column offset of -1 |
| `KiloScreen.FifthDeletion` | plugins/kilo/kilo.c:773-783 | one more deletion leaves the cursor left of the text |
| `KiloScreen.TwoKeys` | plugins/kilo/kilo.c:725-1134 | two keys in a new editor one line high that put the cursor's line above the window, from where the arrow up leaves the rows |
| `KiloFile.LoadedStep` | plugins/kilo/kilo.c:815-822 | one turn of the loading loop takes one line and adds one row |
| `KiloFile.StrippedIs` | plugins/kilo/kilo.c:815-822 | what is stripped from a line: one newline or one carriage return |
| `KiloFile.LoadUndoesSave` | plugins/kilo/kilo.c:637-822 | saving then loading restores exactly those rows that hold no newline, closing carriage returns included |
| `KiloFile.SaveUndoesLoad` | plugins/kilo/kilo.c:637-822 | loading then saving gives the same bytes if and only if the file is empty or ends in a newline |
| `KiloFile.OpenLineClosed` | plugins/kilo/kilo.c:815-822 | any other file gains its newline, in place of a closing carriage return if it has one |
| `KiloRender.RenderRow` | plugins/kilo/kilo.c:556-584 | the two nested loops, on the allocation as it wraps and with an int for index: exit exactly on a row too long, overrun exactly from 2^29 tabs on where the end of the buffer comes before INT_MAX, the index overflowing in the other cases, and else, exactly when the rendering is shorter than INT_MAX or ends there without a tab, the recursive tab expansion and a NUL |
| `KiloRender.OutcomeOfAllocation` | plugins/kilo/kilo.c:566-582 | on the buffer that is allocated: filled exactly if the index holds out, written past exactly if too small with its end before the index's |
| `KiloRender.FillRender` | plugins/kilo/kilo.c:574-582 | the loops on any buffer: filled, past its end, or past INT_MAX, whichever comes first |
| `KiloRender.RenderedPiece` | plugins/kilo/kilo.c:574-582 | what is in the rendering: each character in its place as itself, each tab as blanks up to just before a multiple of eight |
| `KiloRender.PlainRendersItself` | plugins/kilo/kilo.c:574-582 | a row without tabs renders as itself |
| `KiloRender.ExpandFits` | plugins/kilo/kilo.c:566-573 | by exact arithmetic the expansion needs at most seven more bytes a tab |
| `KiloRender.ExpandGrows` | plugins/kilo/kilo.c:577-579 | each tab passes another multiple of eight |
| `KiloRender.AllocationSuffices` | plugins/kilo/kilo.c:566-573 | for any row that passes the length check, the 32-bit size asked for holds the rendering and its NUL if and only if there are fewer than 2^29 tabs |
| `KiloRender.AllocationFallsShort` | plugins/kilo/kilo.c:566-573 | a row of 2^29 tabs passes the check and gets too little |
| `KiloRender.IndexFallsShort` | plugins/kilo/kilo.c:558-579 | every row of 2^28 tabs or more that passes the check with room enough in memory overflows the index |
| `KiloRender.LongestPlainRow` | plugins/kilo/kilo.c:558-579 | INT_MAX characters without a tab are rendered, the index ending at INT_MAX |
| `KiloRender.CursorColumn` | plugins/kilo/kilo.c:983-992 | the loop reads only inside the row if and only if the column offset is not negative or nothing is passed; the column is then one plus the expanded length of the columns from the offset to the cursor |
| `KiloRender.PassedIs` | plugins/kilo/kilo.c:985-990 | the columns passed are the row's own, and blanks beyond its end |
| `KiloRender.ColumnIsRendered` | plugins/kilo/kilo.c:983-992 | with no horizontal offset, that text is what stands left of the cursor, and its expansion is a prefix of the row's rendering |
| `Kilo.UpdateRow` | plugins/kilo/kilo.c:556-584 | the row's text is untouched, and its rendering belongs to it if the row can be rendered |
| `Kilo.RowInsertChar` | plugins/kilo/kilo.c:661-681 | the character is inserted at the column, after blanks up to it if it lies past the end |
| `Kilo.RowAppendString` | plugins/kilo/kilo.c:684-691 | the bytes are appended |
| `Kilo.RowDelChar` | plugins/kilo/kilo.c:694-700 | the one character at the column is gone, or nothing changed past the end |
| `Kilo.Editor.InsertRow` | plugins/kilo/kilo.c:592-610 | one row more at the place, those below shifted, ignored beyond the row after the last |
| `Kilo.Editor.DelRow` | plugins/kilo/kilo.c:621-631 | one row fewer, those below shifted, ignored beyond the last row |
| `Kilo.Editor.InsertChar` | plugins/kilo/kilo.c:703-721 | its accesses stay inside the row exactly when the cursor is not left of it, on, past or below the text; then rows, logical cursor and window become those of typing the character |
| `Kilo.Editor.InsertNewline` | plugins/kilo/kilo.c:725-758 | the same for breaking the line, for a cursor above, on, past or below the text |
| `Kilo.Editor.DelChar` | plugins/kilo/kilo.c:761-793 | the same for deleting, with the column offset left over by a join and the new one it leaves |
| `Kilo.Editor.MoveCursor` | plugins/kilo/kilo.c:1112-1183 | the arrow keys, the window scrolled or not: whether an access leaves the rows, and else the cursor and window of the step and of the return to the row's end |
| `Kilo.Editor.RowsToString` | plugins/kilo/kilo.c:637-657 | a fresh buffer holding the flat string and a NUL, never written outside |
| `Kilo.Editor.Open` | plugins/kilo/kilo.c:797-827 | the file's lines are appended as rows and the editor is clean |
| `Kilo.Editor.TypeThenDelete` | plugins/kilo/kilo.c:703-793 | on the editor itself, typing and deleting restores text and logical cursor |
| `Kilo.Editor.BreakThenJoin` | plugins/kilo/kilo.c:725-793 | on the editor itself, whatever the column offset, breaking and joining restores text and logical cursor |
| `Kilo.Editor.CursorX` | plugins/kilo/kilo.c:983-992 | where the cursor is drawn, and exactly when finding that out reads only inside the row |
| `Kilo.Editor.Press` | plugins/kilo/kilo.c:703-1183 | any run of keys and arrows on the editor is the run on the document and window, until an access would leave its row |
| `Kilo.Editor.JoinMissesTheText` | plugins/kilo/kilo.c:703-793 | a new editor brought by ten keys to a cursor left of the text: on the way the cursor's drawing reads outside the row, and then typing writes outside it |
| `Kilo.Editor.UpLeavesTheRows` | plugins/kilo/kilo.c:725-1180 | a new editor one line high in which a line break, the arrow left and the arrow up read above the first row |
| `Kilo.Editor.SaveThenOpen` | plugins/kilo/kilo.c:637-822 | what one editor saves another opens as the same rows |
| `Pipes.Guest.PipeEndFree` | plugins/pipe-compat/pipe.c:50-67 | drops the end's handles in order, then the pipe exactly when this was its last end, and frees both structs accordingly; every dropped handle was live |
| `Pipes.Guest.InsertEnd` | plugins/pipe-compat/pipe.c:127-145 | a new end with its stream behind a free descriptor; with the table full, its stream is dropped and the pipe too if it has no other end |
| `Pipes.Guest.MakePipe` | plugins/pipe-compat/pipe.c:147-183 | both descriptors, the first on the read stream and the second on the write stream of one new pipe, or neither: whichever insertion fails, table and structs are as before and the three new handles are dropped once each |
| `Pipes.Guest.OpenEnds` | plugins/pipe-compat/pipe.c:160-182 | the two insertions with the clean-up of either's failure |
| `Pipes.Guest.WkPipeOfFd` | plugins/pipe-compat/pipe.c:189-205 | the pipe handle behind one of our descriptors, live, or none for any other; the reference taken is given back, so nothing changes |
| `Pipes.Guest.Close` | plugins/pipe-compat/wasilibc_descriptor_table.h:137-140 | the descriptor goes; the end's destructor runs exactly when it was the last one |
| `Pipes.Guest.Dup` | plugins/pipe-compat/wasilibc_descriptor_table.h:104-108 | one descriptor more for the same end, counted |
| `Pipes.Guest.Poll` | plugins/pipe-compat/pipe.c:44-46 | a pollable cached in an end is owned by it, so it is dropped with it |
| `Pipes.Guest.Run` | plugins/pipe-compat/pipe.c:50-205 | after any run: a pipe's count is the number of its live ends, an end's count that of its descriptors, no handle was ever dropped twice, and a handle was dropped exactly if nothing holds it |
| `Pipes.CloseKeeps` | plugins/pipe-compat/pipe.c:50-67 | closing any descriptor keeps all counts exact and every live handle held exactly once |
| `Pipes.FreedKeepsHandles` | plugins/pipe-compat/pipe.c:50-67 | freeing an end drops only live handles, none twice, and leaves every other held once |
| `Pipes.DropOrder` | plugins/pipe-compat/pipe.c:50-67 | the order of the drops: pollables, streams, and the pipe last and only with its last end |
| `Pipes.PipeKeepsCounts` | plugins/pipe-compat/pipe.c:147-183 | a new pipe keeps all counts exact |
| `Pipes.PipeKeepsHandles` | plugins/pipe-compat/pipe.c:147-183 | a new pipe's three handles have one holder each |
| `Pipes.DupKeeps` | plugins/pipe-compat/wasilibc_descriptor_table.h:104-108 | duplicating any descriptor keeps both |
| `Pipes.AllClosedAllFreed` | plugins/pipe-compat/pipe.c:50-67 | when no descriptor of ours is left, no end, no pipe and no live handle is |
| `ZipIndex.AncestorsArePrefixes` | plugins/zipfs/zipfs.c:74-81 | cutting at the last slash again and again yields exactly the non-empty prefixes that end before a slash |
| `ZipIndex.IndexBuilt` | plugins/zipfs/zipfs.c:129-146 | for every list of members: no path twice, exactly the members' paths and those above them, and every entry explained by a member |
| `ZipIndex.IndexClosed` | plugins/zipfs/zipfs.c:58-81 | no path twice, and every ancestor of an indexed path is indexed |
| `ZipIndex.KindsRight` | plugins/zipfs/zipfs.c:129-146 | if no file member stands where a directory is needed, an entry is a directory exactly if some member says so, and a file exactly if a file member is there |
| `ZipIndex.FirstMemberKept` | plugins/zipfs/zipfs.c:58-71 | a further member changes no entry and no place in the index |
| `ZipIndex.DotSlashStripped` | plugins/zipfs/zipfs.c:133-135 | a leading "./" does not matter |
| `ZipIndex.NamePath` | plugins/zipfs/zipfs.c:136-143 | any other name is its path, without one closing slash, which makes it a directory; of a name too long for the buffer the first 1023 bytes |
| `ZipTree.ChildOfParentOnly` | plugins/zipfs/zipfs.c:211-222 | the listing's prefix and depth tests hold of exactly one directory, the path's parent |
| `ZipTree.EmittedChildren` | plugins/zipfs/zipfs.c:192-226 | what the daemon emits is exactly the entries directly below the directory |
| `ZipTree.ListingExact` | plugins/libfuse-compat/fuse_shim.c:262-310 | a listing through the shim's filler shows exactly the direct children, each once and with its own kind |
| `ZipTree.WalkReachesIndex` | plugins/zipfs/zipfs.c:192-226 | walking listings from the root reaches a path if and only if it is indexed |
| `ZipFs.Zip.FindEntry` | plugins/zipfs/zipfs.c:51-56 | an entry with the path, if and only if there is one |
| `ZipFs.Zip.PushEntry` | plugins/zipfs/zipfs.c:58-71 | one entry more, unless the path is empty or known |
| `ZipFs.Zip.PushParents` | plugins/zipfs/zipfs.c:74-81 | all missing ancestors are entered, nearest first |
| `ZipFs.Zip.Normalize` | plugins/zipfs/zipfs.c:134-143 | leading "./" pairs and one closing slash are stripped, and the slash makes a directory |
| `ZipFs.Zip.EnsureIndex` | plugins/zipfs/zipfs.c:112-151 | the index is that of the whole archive, built once; a missing archive leaves it to the next request, a corrupt one is never tried again |
| `ZipFs.FoundLater` | plugins/zipfs/zipfs.c:112-125 | a missing archive is looked for again, a corrupt one never, an opened one stays |
| `ZipFs.Zip.Getattr` | plugins/zipfs/zipfs.c:174-190 | root is a directory; any other path gives its entry's kind and size, or nothing exactly if it is not indexed, as with no archive |
| `ZipFs.Zip.Readdir` | plugins/zipfs/zipfs.c:192-226 | the dots and the children, in index order, or the error for a missing path or a file; an empty root and nothing else without an archive |
| `ZipFs.Zip.Open` | plugins/zipfs/zipfs.c:228-240 | the position of the file's entry, or the error for a missing path, a directory, or writing, each exactly then |
| `ZipFs.Zip.MemberData` | plugins/zipfs/zipfs.c:154-170 | what a fresh extraction of the member would give, whatever the one slot held |
| `ZipFs.Zip.Read` | plugins/zipfs/zipfs.c:242-257 | the requested stretch of the member, clipped at its end, whatever was read before |
| `FuseShim.Shim.HandleAlloc` | plugins/libfuse-compat/fuse_shim.c:207-219 | the lowest handle not live now stands for the file, or none exactly when all are live; nothing else changes |
| `FuseShim.Shim.HandleGet` | plugins/libfuse-compat/fuse_shim.c:221-225 | what a live handle stands for, and nothing for any other number |
| `FuseShim.Shim.HandleFree` | plugins/libfuse-compat/fuse_shim.c:227-234 | exactly that handle is gone, if it was live |
| `FuseShim.Shim.DoOpen` | plugins/libfuse-compat/fuse_shim.c:370-456 | errors in the order the code finds them; a reply of opened adds exactly one entry, with path, kind and number, under the lowest free handle; any other reply leaves the table alone |
| `FuseShim.OpensExactly` | plugins/libfuse-compat/fuse_shim.c:370-456 | which opens succeed, for every daemon: what is there unless it should be new, a file only if truncated when asked and opened by the daemon, what is not there only if created, and all only with a handle left |
| `FuseShim.OpenedIs` | plugins/libfuse-compat/fuse_shim.c:407-456 | what a successful open replies and records: lowest free handle, path, kind, size, the daemon's number |
| `FuseShim.OpenErrors` | plugins/libfuse-compat/fuse_shim.c:370-456 | the error of every open that fails, in the order of the tests |
| `FuseShim.CallsRefused` | plugins/libfuse-compat/fuse_shim.c:458-508 | which reads and writes never reach the daemon, and their errors |
| `FuseShim.AnswersAreTheDaemons` | plugins/libfuse-compat/fuse_shim.c:471-507 | of those that do, the reply is the daemon's answer, a short read ending the file |
| `FuseShim.Shim.DoRead` | plugins/libfuse-compat/fuse_shim.c:458-486 | the daemon is called only for a live file handle, with the path and number recorded at open; end of file is a short answer |
| `FuseShim.Shim.DoWrite` | plugins/libfuse-compat/fuse_shim.c:488-508 | the same for writes |
| `FuseShim.Shim.DoRelease` | plugins/libfuse-compat/fuse_shim.c:510-517 | exactly that handle is gone, any other number is ignored; the daemon is told of a live file handle with its recorded path, if it listens, and of nothing else |
| `FuseShim.Shim.Handle` | plugins/libfuse-compat/fuse_shim.c:578-618 | any request: reply, call and table as one function of the table before |
| `FuseShim.Shim.Run` | plugins/libfuse-compat/fuse_shim.c:207-517 | over any run, table and every reply are those of the requests replayed on the map |
| `FuseShim.LiveIsLastOpen` | plugins/libfuse-compat/fuse_shim.c:207-456 | over every run from an empty table, a handle is live exactly if some open handed it out and no release came behind; it stands for the path, kind and number of that open |
| `FuseShim.IssuedOnce` | plugins/libfuse-compat/fuse_shim.c:207-234 | no handle is handed out twice without a release in between |
| `FuseShim.CallsCarryThePath` | plugins/libfuse-compat/fuse_shim.c:458-517 | every read, write or release the daemon sees carries the path and number of the open that handed its handle out, with no release in between, and the size, offset and data of the request |
| `FuseShim.ReleasedFails` | plugins/libfuse-compat/fuse_shim.c:458-517 | a released handle answers ENOENT, and the daemon is not called, until it is handed out again |
| `FuseShim.LiveCount` | plugins/libfuse-compat/fuse_shim.c:207-234 | the live handles number those before, plus the successful opens, less the releases of live handles |
| `FuseShim.LiveBounded` | plugins/libfuse-compat/fuse_shim.c:196-219 | handles are 1 to 256, and never more are live |
| `ZipNode.Node.DirFill` | plugins/libfuse-compat/fuse_shim.c:262-310 | dots go; a claimed file is believed; any other claim is what getattr of the child's path says |
| `ZipNode.Node.Collect` | plugins/libfuse-compat/fuse_shim.c:262-310 | the filler over all the daemon's calls |
| `ZipNode.Node.DoReaddir` | plugins/libfuse-compat/fuse_shim.c:332-368 | the listing of an indexed directory, or ENOENT or ENOTDIR exactly as the path is absent or a file; an empty root without an archive |
| `ZipNode.Node.DoOpen` | plugins/libfuse-compat/fuse_shim.c:370-456 | the exact reply for every path: a directory that can be listed or an indexed file with its size, under the lowest free handle, unless it should be new, is to be written, or no handle is left; open handles always stand for such a directory or file |
| `ZipNode.Node.DoRead` | plugins/libfuse-compat/fuse_shim.c:458-486 | a read through an open file handle gives that stretch of its member, with end of file exactly when it is short |
| `ZipNode.Node.ReadToEnd` | plugins/libfuse-compat/fuse_shim.c:458-486 | reading in pieces of any positive sizes until end of file, with any reads of any handles in between, ends and yields exactly the extracted member |
| `Letterbox.Fits` | plugins/gfx-compat/wkgfx.c:167-179 | without 32-bit overflow the scaled image lies inside the surface, fills it exactly on one axis, and opposite bars differ by at most a pixel |
| `Letterbox.AxisFilled` | plugins/gfx-compat/wkgfx.c:172-177 | the clamped, truncated extent is the surface's if and only if the quotient reaches it and fits 32 bits |
| `Letterbox.FillsExactly` | plugins/gfx-compat/wkgfx.c:167-177 | the scaled image fills the surface on one axis if and only if some axis' quotient reaches the surface and fits 32 bits; some quotient always reaches it |
| `Letterbox.SampleInside` | plugins/gfx-compat/wkgfx.c:182-190 | every sample falls inside the image, so the clamps never act |
| `Letterbox.ShownIs` | plugins/gfx-compat/wkgfx.c:181-192 | the pixel shown at a place of the picture is the image's pixel (i, j) whose cell the scaled coordinates fall in; outside the picture black |
| `Letterbox.UnscaledShown` | plugins/gfx-compat/wkgfx.c:167-192 | at scale one the image is shown pixel by pixel, centred |
| `Letterbox.SamplesInOrder` | plugins/gfx-compat/wkgfx.c:182-190 | samples go on in the image's order, none skipped when it is enlarged, none repeated when reduced |
| `Letterbox.LineShownExactly` | plugins/gfx-compat/wkgfx.c:167-192 | when the image is enlarged, its column or row i is shown if and only if the last sample reaches it |
| `Letterbox.AllLinesShownExactly` | plugins/gfx-compat/wkgfx.c:167-192 | all of them are shown if and only if the last one is |
| `Letterbox.LastColumnLost` | plugins/gfx-compat/wkgfx.c:167-192 | an image of three by five pixels, enlarged to eight by eight, loses its last column |
| `Letterbox.SmallSurfacesFit` | plugins/gfx-compat/wkgfx.c:168-173 | no overflow on surfaces up to 2^31 pixels a side |
| `Letterbox.OverflowHidesImage` | plugins/gfx-compat/wkgfx.c:168-177 | two surfaces whose wrapped buffers are small enough to be granted, and which the image would cover but is given no width, and in the second case no height, because the quotient is truncated |
| `Letterbox.StageableIsSafe` | plugins/gfx-compat/wkgfx.c:144-177 | a surface whose buffer size does not wrap never overflows a quotient and never divides by zero |
| `Letterbox.DrawnInPlaceExactly` | plugins/gfx-compat/wkgfx.c:144-192 | where there is anything to draw, every pixel of the image is written at its own index inside the wrapped buffer if and only if sw * sh * 4 < 2^32 |
| `Letterbox.WrapsToNothing` | plugins/gfx-compat/wkgfx.c:144-192 | a square surface whose request wraps to zero bytes: the first write already lies outside |
| `Letterbox.WrapsInside` | plugins/gfx-compat/wkgfx.c:180-192 | a surface whose byte offsets wrap too: the middle row is written inside the buffer, at the top |
| `Letterbox.Gfx.StageFit` | plugins/gfx-compat/wkgfx.c:140-147 | the buffer is kept if it fits, else allocated at the wrapped size or missing |
| `Letterbox.Gfx.FillRow` | plugins/gfx-compat/wkgfx.c:187-192 | tells whether each pixel of the row has its place inside the buffer, and if so each is its fixed-point sample and no other pixel changes |
| `Letterbox.Gfx.FillRows` | plugins/gfx-compat/wkgfx.c:181-196 | the same for all rows of the image, on a cleared stage |
| `Letterbox.Gfx.Present` | plugins/gfx-compat/wkgfx.c:149-199 | for every image and surface: nothing for empty ones or a missing buffer, the image itself if the sizes agree; else each surface pixel is its sample inside the rectangle and zero outside if the buffer's size does not wrap, and if it does a trap on scale zero, a black frame when nothing is drawn, or a pixel out of place |
| `Letterbox.DrawnShows` | plugins/gfx-compat/wkgfx.c:180-196 | a drawn stage shows, at every column and row, what the specification says |
| `WordWrap.JoinSplit` | crates/client-local-ui/src/compositor.rs:2133 | the words joined by blanks are the paragraph |
| `WordWrap.SplitExactly` | crates/client-local-ui/src/compositor.rs:2133 | the words are the one way to write the paragraph as pieces without blanks, joined by blanks |
| `WordWrap.WrapParagraph` | crates/client-local-ui/src/compositor.rs:2131-2147 | the loop's lines are those of the recursive wrap |
| `WordWrap.WrappedIsRuns` | crates/client-local-ui/src/compositor.rs:2133-2145 | with no empty word but the last, the lines built character by character are runs of words |
| `WordWrap.RunsGood` | crates/client-local-ui/src/compositor.rs:2133-2145 | every word is in exactly one run, in order, and every run fits or is one word |
| `WordWrap.WrapLosesNothing` | crates/client-local-ui/src/compositor.rs:2131-2147 | the lines joined by blanks are the paragraph, for any measure |
| `WordWrap.LosslessExactly` | crates/client-local-ui/src/compositor.rs:2134-2138 | the wrap loses nothing under every measure if and only if no word but the last is empty |
| `WordWrap.GreedyAhead` | crates/client-local-ui/src/compositor.rs:2133-2145 | begun at any later word, the greedy wrap needs no more lines than any wrap of the whole |
| `WordWrap.WrapIsOptimal` | crates/client-local-ui/src/compositor.rs:2131-2147 | under any measure by which part of a fitting run of words fits, the lines fit or are single words and no such wrap has fewer |
| `Clipboard.Compositor.Drain` | crates/client-local-ui/src/compositor.rs:821-842 | every wired board's outbox is emptied; an accepted text becomes the board's and the host's, and counts as a reading of the host; the last accepted one stays on the host |
| `Clipboard.RefusedCopyLost` | crates/client-local-ui/src/compositor.rs:825-842 | a copy the host refuses is lost: the outbox is emptied, and neither board nor host shows it |
| `Clipboard.TakenCopyHeld` | crates/client-local-ui/src/compositor.rs:825-842 | a copy it takes, with nothing written behind, is what it holds |
| `Clipboard.Compositor.Spread` | crates/client-local-ui/src/compositor.rs:856-866 | every wired board shows the host's text, its number moved only by a change or a first observation |
| `Clipboard.Compositor.PollHost` | crates/client-local-ui/src/compositor.rs:844-866 | a reading that is due and succeeds reaches every wired board; otherwise no board changes |
| `Clipboard.Throttled` | crates/client-local-ui/src/compositor.rs:844-855 | within 250 ms of a reading or of a write of its own the host is not read, unless the window took the focus |
| `Clipboard.PollsWhenDue` | crates/client-local-ui/src/compositor.rs:844-855 | after that it is, a reading that fails counting as one; every wired board learns whether there is a host clipboard |
| `Clipboard.Compositor.PumpClipboard` | crates/client-local-ui/src/compositor.rs:801-867 | a whole pump, with the throttle, refusals and an absent clipboard, as one function of the state before |
| `Clipboard.After` | crates/wk-server/src/clipboard.rs:61-71 | every event keeps the number of boards, and that a board nobody observed shows no text |
| `Clipboard.RunKeeps` | crates/wk-server/src/clipboard.rs:61-66 | over every run of copies, outside changes, wiring and pumps, each board's number never decreases and an equal number means an equal text |
| `Clipboard.SameNumberSameText` | crates/wk-server/src/clipboard.rs:128-142 | a guest that stays at one board, the same from its creation on, however far apart it reads and whatever becomes of its permits, reads equal texts under equal numbers |
| `Clipboard.MovedWireMisleads` | crates/wk-server/src/server.rs:2287-2291 | a run in which a guest whose wire moves reads two texts under the same number |
| `Clipboard.RenewedNodeMisleads` | crates/wk-server/src/server.rs:4735-4740 | a run in which a guest's clipboard node is deleted and restored, and it reads two texts under the same number |
| `Clipboard.PollReachesAll` | crates/client-local-ui/src/compositor.rs:844-866 | a pump that reads the host leaves its text on every wired board, where a permitted guest gets it unless it is too long |
| `Clipboard.LastCopyWins` | crates/wk-server/src/clipboard.rs:67-70 | of two copies before a pump only the second is left |
| `Clipboard.PermitsHold` | crates/wk-server/src/clipboard.rs:110-156 | what a guest without a permit, or a text over 4 MiB, reads and sets: nothing; and else exactly its board's number and text, and its copy |
| `Clipboard.StepStays` | crates/client-local-ui/src/compositor.rs:829-866 | one event leaves the number of a board that has observed something if and only if neither an accepted copy of its own nor a poll shows it another text |
| `Clipboard.RunStays` | crates/client-local-ui/src/compositor.rs:829-866 | the same over every run, whatever comes and goes on the host clipboard between two polls |
| `Clipboard.OwnCopyRaisesOnce` | crates/client-local-ui/src/compositor.rs:829-838 | after a board's own copy of a new text is published, and any run behind, its number has risen by exactly one if and only if no poll and no later copy of its own showed it another text |
| `Clipboard.KnownCopyRaisesNothing` | crates/client-local-ui/src/compositor.rs:829-838 | a copy of the text the board shows already leaves its number if and only if nothing else is shown to it |
| `Clipboard.OwnCopyWhileHeld` | crates/client-local-ui/src/compositor.rs:829-838 | while the host holds the copy, no poll and no copy of its own shows the board another text |
| `Clipboard.OwnCopyAtMostOnce` | crates/client-local-ui/src/compositor.rs:829-866 | for every copy that is published, of any text and by any board: while the host holds it the board shows it, and its number has risen by at most one, by one if the text was new, by none if it was known to a board that had observed something |
| `Clipboard.OverwrittenAtOnce` | crates/client-local-ui/src/compositor.rs:821-866 | two boards that copy before one pump: that pump and the next raise the first one's number by two |

## Left out

- Sockets, timers, threads and QUIC themselves: connecting, accepting, delivery and failure are free choices of the model.
- Uplink frames: the datagram pump, the trunk and the hub are not part of this model; neither are third parties, so a target is dialed only at the other uplink.
- UplinkProtocol.Step: dropping an uplink stops its dialer and closes its endpoint in one step; a close once sent stays deliverable until it is delivered.
- Resolver.State.ResNmkquery: null pointers are not modelled; the header and the question are laid out from the source, the bits of the options other than recursion are ignored as there.
- The resolver's initialisation, its UDP and TCP senders and `/etc/resolv.conf`: input and output only.
- Kilo's `erow.idx`, highlighting, search and screen drawing: `idx` is not a row's position after a deletion, so nothing is claimed of it.
- Kilo.Editor.InsertChar, Kilo.Editor.InsertNewline and Kilo.Editor.DelChar: when an access leaves the row's buffer nothing is said of the state behind it, nor after the exit, the overrun or the overflow of a row that cannot be rendered; text and cursor are then those of a program that ran on.
- KiloScreen.RunMeant: the page keys and the search move the cursor by themselves and are not modelled; neither is a change of the window's size.
- Kilo.RowDelChar: leaves the old rendering in place until the row is updated, as the code does; what is drawn from it is not modelled.
- Row lengths, row counts and screen columns in kilo are mathematical integers; wrap-around is modelled in the rendering's allocation and index.
- Failed allocations in `pipe`, in `insert_end`, in the shim and in the zip daemon: the code does not clean up after all of them.
- Pipes.Guest.Run: addresses and handles are never reused, so that "dropped once" speaks of one resource; descriptor numbers are reused freely.
- ZipFs.Zip.EnsureIndex: which archive is located, and reading it, are not modelled; what is found is taken to be the same archive throughout.
- ZipTree.WalkReachesIndex: speaks of archives whose names have ordinary components and where no file stands in a directory's place; of other archives only the closure under ancestors and the absence of duplicates are proved.
- ZipFs.Zip.Read: extraction is a function of the member, of the size its entry states; sizes are not truncated to `int`.
- FuseShim.Shim.DoOpen: a file the daemon opened while no handle was left is not released, in the code as in the model.
- Mapping of errno values to `wk:fs` codes, and the set-size, rename, mkdir and similar operations: one lookup and one call each.
- Letterbox.Gfx.Present: what the host does with the pixels is not modelled, nor what a pixel written out of its place does.
- WordWrap.WrapParagraph: the measure is any predicate on lines; splitting the note at newlines and drawing the lines are not modelled.
- Clipboard.Compositor.PumpClipboard: boards are visited in one fixed order, where the program's is that of a hash map; sequence numbers do not wrap at 2^64; a guest's copy between the two loops of one pump counts as coming after the pump.
