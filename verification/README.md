# Mutt-ng in Dafny

A model of the algorithms in Mutt-ng that have something to get wrong: the dot-lock protocol, the key-binding index,
alias expansion, the copying of messages without their deleted attachments, the header copier, the header cache,
message flags and thread walks, calendar arithmetic, transfer encodings, the hash table, the tokenizer, the line
editor and the colour-pair allocator. Each module follows one source file. Code that updates things in place is a
class or a method with loops, proved against a specification on values; what the program promises is proved about
the specification.

`dafny verify dfyconfig.toml` checks everything.

| file | models |
|---|---|
| Dotlock.dfy, DotlockProgress.dfy | dotlock.c as a step system over a directory, any number of processes |
| KeySequence.dfy, Keymap.dfy | km_bind and the sorted list with shared-prefix counts (keymap.c) |
| KeyInput.dfy, Dokey.dfy, DokeyReplies.dfy | the push-back stack (curs_lib.c), push_string, km_dokey and retry_generic |
| Alias.dfy, AliasGraph.dfy | alias.c, with duplicate removal (sendlib.c) and qualification (rfc822.c) |
| CopyAttach.dfy, CopyPrinted.dfy | the copying of messages (copy.c) |
| CopyHeader.dfy, HeaderFields.dfy, HeaderNames.dfy, HeaderLines.dfy, HeaderText.dfy | mutt_copy_hdr (copy.c) |
| Hcache.dfy | hcache.c |
| Ledger.dfy, Flags.dfy, Threads.dfy | flags.c |
| Calendar.dfy, Date.dfy | date.c |
| LineEnds.dfy, Sextets.dfy, Decoding.dfy, Encoding.dfy | handler.c, crypt.c and the base64 encoder of sendlib.c |
| Base64.dfy, Base64Meaning.dfy | base64.c |
| Hash.dfy | hash.c |
| Tokenizer.dfy, TokenMeaning.dfy | buffer.c and write_safe_address (alias.c) |
| EditLine.dfy, EditMeaning.dfy, Window.dfy, Enter.dfy | enter.c |
| Color.dfy | color.c |
| Ascii.dfy, Bytes.dfy, Numerals.dfy, Options.dfy, Sequences.dfy | shared vocabulary |

Where the code does not do what one would expect, the model follows the code and says exactly when it does:

- `dotlock -r 10` (or more) and `dotlock -f` break mutual exclusion: after HARDMAXATTEMPTS rounds the lock loop falls
  through to success (`Dotlock.MutualExclusionIff`).
- A failing stat after the link leaves a lock file that belongs to nobody (`DotlockProgress.FailedStatLeavesStale`), as
  a crash does, and such a file stays for ever as long as nobody passes -f and every -r is below 10
  (`DotlockProgress.StaleForEver`).
- `mutt_copy_hdr` honours CH_NOQFROM on its fast path only (`CopyHeader.PathsAgreeIff`). An abbreviated list of
  recipients loses its newline, so that the next field of its place follows the dots on the same line
  (`HeaderLines.RecipientsAbbreviated`).
- `_mutt_copy_message` prints the blank line that ends the header only together with a line count: if and only if the
  stored count exceeds the lines gone (`CopyAttach.HeaderEndedIff`). A header read without a Lines field stores 0
  (parse.c:1071 is where it is set), and then deleting three lines leaves the header without an end
  (`CopyAttach.UncountedHeaderUnended`). When anything is deleted, the printed line count is the true one if and
  only if the stored one was (`CopyAttach.LinesExactIff`). A root part marked deleted would be counted as stubbed though
  it is copied whole (`CopyAttach.PredictionExactIff`), but only parts of a multipart are ever marked (recvattach.c:1110 and 1128).
- Flagging a message with an even, non-zero value would count it as flagged without flagging it
  (`Flags.EvenValueSlips`, `Ledger.CountedIff`). No caller of `mutt_set_flag` passes one: they pass 0, 1, a negation or
  a one-bit field.
- `mutt_mktime` truncates towards zero and knows no century rule: on fields in range it is exact from 1969 to February
  2100 and in some earlier months, and in no other (`Date.NoDayErrorIff`, `Date.Tm.Mktime`). A month above 11 is not
  carried into the year (`Date.OverrunTooLow`). Of the callers only gnupgparse.c:227 passes a month it has not checked;
  the mail parsers look month names up, and pattern.c brings the month into range.
- `mutt_decode_xbit` takes one character more than its length from the input (`Decoding.Decoder.DecodeText`).
- A text with CR LF in it does not survive sending and receiving (`Encoding.BodyRoundTrip`).
- Three digits after a backslash make a character even if they are not octal (`Tokenizer.ThreeDigits`).
- `parse_alias` reads addresses without the flag that keeps comments, so that # cuts an address that was written by
  `write_safe_address` (`Tokenizer.SafeRoundTripIff`).
- `hash_resize` reverses duplicates, so that lookups find the last entry afterwards (`Hash.ResizeFindsLast`), and
  `hash_delete_hash` does not decrement the element counter (`Hash.Table.DeleteHash`).
- Every failed colour allocation costs one colour for good (`Color.FailsIff`).
- A window of 2 to 18 columns may not show the cursor (`Window.AlwaysShowsIff`).

## Model

| member | source | states |
|---|---|---|
| `Dotlock.LinkCountTellsOwner` | trunk/dotlock.c:621-637 | A link count of 2 on the private file means exactly that the lock file is a hard link to it |
| `Dotlock.StepKeepsInvariant` | trunk/dotlock.c:572-704 | If nobody passes -f and every -r is below 10, every step of every process, in any interleaving and with failing calls and crashes, keeps the protocol invariant |
| `Dotlock.DisciplinedIsSafe` | trunk/dotlock.c:572-704 | Over every run without -f and with every -r below 10: one holder at a time, the mail delivered is what its holders have collected plus what is in the mailbox, no temporary file left after OK or EXIST, EXIST only after retry + 1 attempts |
| `Dotlock.RemovesOnlyEmptyMailbox` | trunk/dotlock.c:690-704 | The mailbox is empty at the moment it is removed, though holders fill and empty it |
| `Dotlock.GrantedTwice` | trunk/dotlock.c:610-668 | A run in which a process with -f, or with -r 10 or more, is told OK while another one holds the lock |
| `Dotlock.MutualExclusionIff` | trunk/dotlock.c:572-704 | For two or more processes, mutual exclusion in all reachable states if and only if nobody passes -f and every -r is below 10 |
| `Dotlock.NoMailLostIff` | trunk/dotlock.c:690-704 | For two or more processes, every byte delivered has been collected by a holder or is in the mailbox, whatever is removed, under the same condition, and only under it |
| `DotlockProgress.LockedIffOwned` | trunk/dotlock.c:572-704 | From a directory without a lock file, and as long as nobody crashes and no stat fails, there is a lock file if and only if some process holds the lock, is on its way out of the lock loop with it, or has its private file linked to it: unlocking removes it |
| `DotlockProgress.FreeLockGranted` | trunk/dotlock.c:610-661 | In every reachable state a process at the top of the loop in front of a free lock, moving alone, is granted it with one attempt, its private file having become the lock file |
| `DotlockProgress.HeldLockRefused` | trunk/dotlock.c:610-661 | In front of a lock file that is not its own it is told EXIST after the attempts that are left, leaves the lock file and no file of its own |
| `DotlockProgress.LockThenUnlock` | trunk/dotlock.c:572-686 | A whole call and its unlocking leave the directory as it was |
| `DotlockProgress.UnlinkCall` | trunk/dotlock.c:690-704 | Removes the mailbox if and only if it is empty, and leaves no lock file |
| `DotlockProgress.StaleForEver` | trunk/dotlock.c:572-704 | Under the same condition a lock file that belongs to nobody is never removed, and nobody is granted the lock again, whatever happens then |
| `DotlockProgress.FailedStatLeavesStale` | trunk/dotlock.c:610-619 | One failing stat after the link is enough to leave such a lock file |
| `DotlockProgress.ForceStartsOver` | trunk/dotlock.c:624-634 | With -f the lock file of another process is removed when the attempts are used up, and they start over |
| `DotlockProgress.AnythingMayFail` | trunk/dotlock.c:572-704 | The runs considered include a crash at any point and the failure of each call |
| `KeySequence.Trichotomy` | trunk/keymap.c:202-233 | Two key sequences are prefix-comparable, or sort before or after each other, never two of these |
| `KeySequence.BeforeTransitive` | trunk/keymap.c:218-233 | The sorting order is transitive, and the keys shared with the entry after next are the fewer of the two neighbouring counts |
| `Keymap.Keymap.Bind` | trunk/keymap.c:187-242 | Keeps the linked list sorted with every eq exact, and leaves the bindings that are not prefix-comparable with the new sequence, plus the new one; for any sequences, the empty one included |
| `Keymap.Keymap.DropOverridden` | trunk/keymap.c:203-216 | The inner loop drops exactly the run of entries prefix-comparable with the new sequence |
| `Keymap.SpliceSorted` | trunk/keymap.c:235-241 | Splicing a node in for the comparable entries keeps the list sorted, so no sequence is a prefix of another |
| `Keymap.SpliceTable` | trunk/keymap.c:235-241 | Splicing changes the denoted map exactly as rebinding does |
| `Keymap.TableDeterminesList` | trunk/keymap.c:187-242 | The list, with every action, is determined by the map it denotes |
| `Keymap.BoundIffSurvives` | trunk/keymap.c:187-242 | After any series of calls a sequence is bound if and only if some call bound it and no later call bound a comparable one; its action is that of this call |
| `Keymap.Keymap.Follow` | trunk/keymap.c:418-428 | The walk over shared prefixes finds an entry that continues with the typed key if there is one, and never indexes past a sequence |
| `KeyInput.Input.Ungetch` | trunk/curs_lib.c:482-493 | The event is read next, before all that was pending |
| `KeyInput.Input.Getch` | trunk/curs_lib.c:78-110 | Takes the newest pushed-back event, or else the next key of the terminal, a key with the eighth bit coming as ESC and the key if $meta_key is set, and ctrl-G as an error; an error when there is none |
| `KeyInput.Input.PushString` | trunk/keymap.c:275-326 | The text, read back, yields its tokens in order, each <...> being the function key, the named key or the operation it means, before what was pending |
| `KeyInput.LookUp` | trunk/keymap.c:107-125 | The searches for a function key, a key name and a function in the tables of the menus end with the first that fits, in this order |
| `KeyInput.MeaningIgnoresCase` | trunk/keymap.c:249-326 | What is written in angle brackets means the same in any case |
| `KeyInput.TokensWithoutBracket` | trunk/keymap.c:275-326 | Text without > is never taken for an operation |
| `KeyInput.MetaIsEscape` | trunk/curs_lib.c:103-110 | With $meta_key a key with its eighth bit reads as escape and the key without it |
| `KeyInput.KeysAreThemselves` | trunk/curs_lib.c:78-110 | Any other key reads as itself, ctrl-G as an error |
| `DokeyReplies.OperationToken` | trunk/keymap.c:302-322 | Behind any text, a name in angle brackets that is of no key, and in some menu of an operation, is that operation |
| `DokeyReplies.KeyToken` | trunk/keymap.c:292-303 | The name of a key, in any case, is the key |
| `DokeyReplies.FunctionKeyToken` | trunk/keymap.c:107-125 | f and a number from 1 on, printed in decimal, is that function key |
| `DokeyReplies.MeaninglessToken` | trunk/keymap.c:275-326 | The name of no key and of no operation is typed as it stands |
| `Dokey.KmDokey` | trunk/keymap.c:350-446 | For every pending input and all macros, self-referential ones included, it ends, with the operation and the remaining input that the map of bindings specifies |
| `Dokey.Turn` | trunk/keymap.c:362-444 | One round either answers or lowers (macros left, pending operations, pending events) while meaning the same |
| `Dokey.Fetch` | trunk/keymap.c:362-416 | Events are read, usable operations answered and other operations re-pushed as text until a key is at hand |
| `Dokey.RetryGeneric` | trunk/keymap.c:328-346 | All typed keys are given back in order and the generic menu answers; the editor gives nothing back, the generic menu and the pager drop all input |
| `Dokey.LiteralIsPlain` | trunk/keymap.c:396-408 | An operation pushed back as <name> text cannot come back as an operation, so that re-pushing ends |
| `Dokey.PlainStreamHit` | trunk/keymap.c:418-446 | A stream of plain keys yields the operation of the unique bound sequence it starts with and consumes exactly that sequence |
| `Dokey.PlainStreamMiss` | trunk/keymap.c:328-426 | A stream that no binding is comparable with is answered as the generic menu answers the same stream |
| `Dokey.ReadUnfinished` | trunk/keymap.c:362-374 | Keys that only begin a binding when the input ends yield the read error |
| `DokeyReplies.UsableOperation` | trunk/keymap.c:376-394 | A pending operation that is in the table of the menu, or of the generic menu unless this is the editor or the pager, is the answer, and nothing else is read |
| `DokeyReplies.NamedOperation` | trunk/keymap.c:396-415 | Any other is read as the name, in angle brackets, that the first menu that has it gives it |
| `DokeyReplies.UnnamedOperation` | trunk/keymap.c:396-418 | One that no menu has is read as the key it came with |
| `DokeyReplies.InputError` | trunk/keymap.c:365-374 | An error or the end of the input within a binding is the answer -1, and what follows is left |
| `DokeyReplies.NoBindings` | trunk/keymap.c:328-361 | Without bindings the editor gives up, the generic menu and the pager drop all input, and any other menu leaves it to the generic one |
| `DokeyReplies.UnboundKeys` | trunk/keymap.c:328-346 | Keys of which the last leads away from every binding: the editor takes exactly these, the generic menu and the pager drop all input |
| `DokeyReplies.MacroNamesOperation` | trunk/keymap.c:429-441 | Keys bound to a macro that is the name of a usable operation are answered with the operation |
| `DokeyReplies.MacroChain` | trunk/keymap.c:429-441 | A key that leads through up to ten macros to an operation is answered with it; after more the answer is an error and all input is dropped |
| `DokeyReplies.MacroLoop` | trunk/keymap.c:429-441 | A macro that types its own key ends in an error |
| `Dokey.TableIsPrefixFree` | trunk/keymap.c:187-242 | What a sorted list denotes binds no two comparable sequences |
| `Alias.Expander.ExpandR` | trunk/alias.c:53-123 | Computes the recursive specification of the expansion and ends for every alias table, cyclic and case-variant ones included |
| `Alias.ExpandIsReachability` | trunk/alias.c:53-123 | The leaves are exactly the non-alias addresses reachable in the alias graph, and the expanded spellings exactly those met on the way |
| `AliasGraph.StepIffEdge` | trunk/alias.c:43-64 | The edges of this graph, in terms of the alias list: from an address that is only the name of an alias, in any case of letters, to copies of the members of the first alias of this name |
| `AliasGraph.ExpandInOrder` | trunk/alias.c:53-123 | The expansion of a list is that of its front followed by that of its rest |
| `Alias.ExpandedOnce` | trunk/alias.c:65-82 | No spelling is expanded twice |
| `Alias.AllSpellingsSuffice` | trunk/alias.c:43-51 | The spellings of the input and of all alias members bound the expansion of any alias table |
| `Alias.UniqueCovers` | trunk/sendlib.c:2316-2349 | Of each mailbox exactly one address is left, and none is invented |
| `Alias.RemoveDuplicates` | trunk/sendlib.c:2316-2349 | Comparing with the kept addresses only keeps the first address of each mailbox |
| `AliasGraph.FirstsAreKept` | trunk/sendlib.c:2316-2349 | The addresses kept are exactly those before which no address has their mailbox, in their order |
| `Alias.DressedIff` | trunk/rfc822.c:444-456 | Qualification: of a mailbox without @, with a host set, the text before the first @ is the mailbox and the text behind it the host; any other mailbox stays; a personal name is added only to a local address that has none and is no alias |
| `Alias.ExpandAliases` | trunk/alias.c:125-133 | The result is exactly the reachable non-alias addresses, finished and qualified in this sense, one for each mailbox |
| `CopyAttach.CopyDeleteAttach` | trunk/copy.c:767-805 | Writes the bytes of the part with each outermost deleted body replaced by its stub |
| `CopyAttach.CountDeleteLines` | trunk/copy.c:467-494 | Returns the lines lost and adjusts the length by the stub sizes, over all outermost deleted parts |
| `CopyAttach.ExtraDigits` | trunk/copy.c:485-487 | The loop over powers of ten counts the digits of the length beyond the first |
| `CopyAttach.StubSize` | trunk/copy.c:778-782 | A stub has 84 bytes, the date and the further digits of the length, in three lines |
| `CopyAttach.WrittenSize` | trunk/copy.c:467-494 | What the counting walk predicts, in bytes and lines, is what the writing walk writes |
| `CopyAttach.PredictionExactIff` | trunk/copy.c:543-565 | For every well-nested part tree the printed length is that of the written body if and only if the root is live or, by coincidence, as long as it would be stubbed |
| `CopyAttach.LinesExactIff` | trunk/copy.c:543-556 | For a live root the printed line count is that of the written body if and only if the stored count was that of the original body, or no line is left in either |
| `CopyAttach.AllElseSurvives` | trunk/copy.c:767-805 | Every byte outside deleted bodies survives, in order, and no other byte of the message does |
| `CopyPrinted.PartReplaced` | trunk/copy.c:774-797 | In the copy each outermost deleted part stands as a stub that announces its length, followed by its own header, between the copies of what was before and behind it |
| `CopyAttach.CopyMessage` | trunk/copy.c:535-600 | Writes the header with the new length and line count and then the body with its stubs, ends the header if and only if the stored line count exceeds the lines gone, and with M_CM_UPDATE makes message and mailbox describe the copy |
| `CopyPrinted.PrintedNumbers` | trunk/copy.c:552-556 | A reader of the written header finds the new length behind Content-Length and the new line count behind Lines, as decimal numbers |
| `CopyPrinted.AnnouncedLengthExact` | trunk/copy.c:543-565 | For a live root the number behind Content-Length is the length of the body written after it |
| `CopyPrinted.StubAnnounces` | trunk/copy.c:778-782 | A stub names the date from its sixth character on and, in decimal, the length of the deleted part |
| `Numerals.ReadingDecimal` | trunk/copy.c:552 | Reading the digits from the left gives the number printed |
| `CopyAttach.HeaderEndedIff` | trunk/copy.c:543-556 | The blank line that ends the header is printed if and only if the stored line count exceeds the lines gone, whatever the stored count |
| `CopyAttach.HeaderEndedIfCounted` | trunk/copy.c:543-556 | With the true line count stored and anything deleted it is printed |
| `CopyAttach.UncountedHeaderUnended` | trunk/copy.c:543-556 | A message with no stored line count whose header is left without its end |
| `CopyAttach.UpdatedBodyLocated` | trunk/copy.c:579-600 | For a live root the offset and the length stored by the update delimit exactly the written body |
| `CopyHeader.CopyHdr` | trunk/copy.c:41-336 | Writes what the fast or the collecting specification says, whichever path the flags choose, decoding included |
| `CopyHeader.CopyLines` | trunk/copy.c:62-110 | The loop over buffers of 256 bytes writes what the fast specification says |
| `HeaderFields.FastPathWrites` | trunk/copy.c:62-110 | What the fast path writes is the concatenation of the header fields, each with its continuation lines, up to the first blank line, that its flags do not name |
| `HeaderFields.ItemsAreText` | trunk/copy.c:62-110 | The fields, defined without regard to flags, make up the whole text |
| `HeaderFields.CollectingPathKeeps` | trunk/copy.c:112-262 | The fields collected are those of the header that the flags keep, whole, decoded and in order, the first From line being kept against weeding if that is forced, unless recipient lists are abbreviated |
| `CopyHeader.CollectFields` | trunk/copy.c:112-262 | The collecting path puts each kept field, with its continuation lines, into its slot |
| `CopyHeader.PutEntries` | trunk/copy.c:264-312 | The slots are written in order, each line of a field behind the prefix |
| `CopyHeader.SortedIsStablePartition` | trunk/copy.c:146-200 | The output order is the stable partition of the kept fields by slot: ascending slots, original order within a slot, nothing lost or duplicated |
| `HeaderFields.ReorderedOutput` | trunk/copy.c:112-312 | Without a prefix the output is the kept fields sorted stably by the first entry of $hdr_order each matches, those that match none coming last |
| `CopyHeader.CollectedIsCopied` | trunk/copy.c:62-312 | Collecting without reordering gives the text that line-by-line copying gives |
| `CopyHeader.PathsAgreeIff` | trunk/copy.c:62-312 | With an empty prefix and no reordering, both paths agree on every header if and only if CH_NOQFROM is unset |
| `HeaderText.HeaderCopied` | trunk/copy.c:41-336 | Of any header text, that is fields of one or more lines of any length up to a blank line, the program writes exactly the fields that are not left out by name, by weeding or as From lines, whole and in order, decoded and with each line behind the prefix if asked for, and nothing of what follows; unless fields are reordered or recipients abbreviated |
| `HeaderText.HeaderIs` | trunk/copy.c:68-75 | The loop over buffers of 256 bytes finds the fields of a header whole, however long their lines are |
| `HeaderNames.DroppedIffRewritten` | trunk/copy.c:88-103 | The fields left out on both paths are those named Status and X-Status, Content-Length and Lines, References, In-Reply-To, in any case of letters, each as its flag says |
| `HeaderNames.CollectingLeavesOut` | trunk/copy.c:168-205 | The collecting path leaves out what is weeded, Delivered-To and the MIME fields besides, but not quoted From lines |
| `HeaderNames.FastLeavesOut` | trunk/copy.c:76-103 | The fast path leaves out From lines not retained, quoted ones and these fields, and nothing else |
| `HeaderLines.BufferIs` | trunk/copy.c:71 | A buffer is the next at most 255 characters, up to a newline |
| `HeaderLines.FieldCollected` | trunk/copy.c:143-146 | Only a To, Cc or Bcc field is abbreviated, when headers are weeded and a limit is set; any other is collected whole |
| `HeaderLines.RecipientsAbbreviated` | trunk/copy.c:219-237 | An abbreviated list keeps its lines up to the limit and then dots, to which whatever follows is glued, since the newline is not kept |
| `HeaderLines.PrefixedLine` | trunk/copy.c:264-312 | Every line of an entry is written behind the prefix, the first and each one after a newline |
| `Hcache.WordRoundTrip` | trunk/hcache.c:104-117 | A 32-bit word read back is the number modulo 2^32, and the same int if it is one |
| `Hcache.Dump.LazyRealloc` | trunk/hcache.c:84-102 | After each call the buffer has the requested size, though small requests are ignored |
| `Hcache.Dump.DumpChar` | trunk/hcache.c:119-137 | Appends the size and the NUL-terminated text, size 0 for NULL |
| `Hcache.Dump.DumpAddress` | trunk/hcache.c:173-191 | Appends the list of any length with its back-patched counter |
| `Hcache.Dump.DumpList` | trunk/hcache.c:211-227 | Appends the list of any length with its back-patched counter |
| `Hcache.Dump.DumpParameter` | trunk/hcache.c:284-302 | Appends the list of any length with its back-patched counter |
| `Hcache.Dump.DumpEnvelope` | trunk/hcache.c:357-393 | Appends the envelope in the format restored later, the real subject as an offset |
| `Hcache.HcacheDump` | trunk/hcache.c:540-572 | The record is exactly the format, and the buffer was large enough at every step |
| `Hcache.Restore.RestoreChar` | trunk/hcache.c:157-171 | Gives back the text, NULL and empty being told apart, and ends where its dump ended |
| `Hcache.Restore.RestoreAddress` | trunk/hcache.c:193-209 | Gives back the list and ends where its dump ended |
| `Hcache.Restore.RestoreEnvelope` | trunk/hcache.c:395-432 | Gives back every field of the envelope and ends where its dump ended |
| `Hcache.Restore.RestoreBody` | trunk/hcache.c:341-355 | Gives back every field of the body and ends where its dump ended |
| `Hcache.HcacheRestore` | trunk/hcache.c:574-595 | Gives back the dumped header |
| `Hcache.Crc32Matches` | trunk/hcache.c:486-498 | A missing record never matches, any other exactly if its checksum word is the one given |
| `Hcache.CrcDumped` | trunk/hcache.c:540-572 | The checksum word of a dumped record is the checksum it was dumped with |
| `Hcache.DumpThenRestore` | trunk/hcache.c:540-604 | Restoring a dumped header gives back every serialised field |
| `Ledger.CensusUpdate` | trunk/flags.c:27-278 | Replacing one message moves the counts by the difference of its two contributions |
| `Ledger.CountersDrift` | trunk/flags.c:27-278 | After any run of changes the six counters are the counts over the messages, but for one flagged too many for each miscounted change |
| `Ledger.CountedIff` | trunk/flags.c:27-278 | The six counters are right after a run if and only if no change was miscounted |
| `Ledger.RunEach` | trunk/flags.c:280-287 | Changing each listed message once changes exactly these, by exactly that change |
| `Flags.Context.Apply` | trunk/flags.c:36-265 | The switch: the bits of the message change as asked, each counter moves with the contribution of the message, and the folder is marked changed exactly when it must be written back |
| `Flags.Context.Update` | trunk/flags.c:27-278 | The same with the permission checks and the dropping of the cached search result; tagging always takes place, in a read-only folder nothing else changes, and in any other a change takes place if and only if it is not so already and the permission it needs is granted |
| `Flags.TagAlways` | trunk/flags.c:34-36 | Tagging needs no permission and touches nothing but the tag and the cached search result |
| `Flags.ReadonlyKeeps` | trunk/flags.c:34-35 | In a read-only folder every other flag leaves message and counters as they were |
| `Flags.WritableTakes` | trunk/flags.c:36-265 | In any other the flag ends as asked if and only if it was so, or the permission named for it is granted and the value is not even and non-zero for the flagged bit |
| `Flags.OthersStay` | trunk/flags.c:36-265 | No change touches another flag |
| `Flags.ReadAndOldStay` | trunk/flags.c:104-224 | except that new means neither read nor old, not new means read, and replying marks as read |
| `Flags.AppendedStays` | trunk/flags.c:38-103 | and that undeleting takes back appending |
| `Flags.MarkTells` | trunk/flags.c:36-265 | A message is marked as changed whenever what the mailbox stores of it has changed, and only then |
| `Flags.DirtiesIff` | trunk/flags.c:36-265 | The folder is marked as changed whenever what it stores has changed: which includes deletion in IMAP folders, and taking out of the trash in maildir folders |
| `Flags.SearchedIff` | trunk/flags.c:269-276 | The cached search result stays unless the message comes to be marked as changed or one of three counters moves |
| `Flags.Settle` | trunk/flags.c:269-276 | Comparing the changed bit and three counters drops the cached search result exactly after the changes that affect it |
| `Flags.CensusCounts` | trunk/flags.c:27-278 | The six counts are the numbers of deleted, appended, tagged, flagged, unread and new messages, new ones being neither read nor old |
| `Flags.ChangeTakes` | trunk/flags.c:36-265 | After a permitted change the flag is as asked for, unless an even non-zero value was assigned to the one-bit flagged field |
| `Flags.EvenValueSlips` | trunk/flags.c:227-250 | Flagging the only message of a folder leaves the counters wrong if and only if it is unflagged, may be flagged, and the value is even and not zero |
| `Flags.OddValuesKeepCount` | trunk/flags.c:227-250 | Runs in which flagging uses odd values, as with 1, keep all six counters right |
| `Flags.Context.SetFlag` | trunk/flags.c:27-278 | A context-updating change is one step of the ledger |
| `Flags.Context.TagSetFlag` | trunk/flags.c:280-287 | Changes the messages of the view that were tagged at the start, each once, though the change may untag them |
| `Flags.OnlyPickedChange` | trunk/flags.c:280-287 | Every message of the folder changes if and only if it is in the view and tagged |
| `Threads.Acyclic` | trunk/flags.c:288-327 | Linked child and sibling pointers never lead back to a node |
| `Threads.EachOnce` | trunk/flags.c:288-327 | The pre-order of a linked forest lists no node twice |
| `Threads.Advance` | trunk/flags.c:318-324 | Climbing finds the next node in pre-order below the start, or ends when there is none |
| `Threads.WalkBelow` | trunk/flags.c:306-325 | The stackless loop ends and visits the nodes below the start in pre-order |
| `Threads.FindStart` | trunk/flags.c:298-301 | Climbing to the root ends at the top-level node whose tree holds the thread |
| `Threads.ThreadSetFlag` | trunk/flags.c:288-327 | Changes exactly the messages of the thread or subthread, in pre-order, or nothing when threading is off |
| `Threads.ChosenOnce` | trunk/flags.c:298-325 | The visited nodes are distinct and include the thread asked for |
| `Threads.ChosenIff` | trunk/flags.c:298-325 | The nodes visited are the thread asked for and all it is an ancestor of, or all that have the same topmost ancestor |
| `Calendar.NextMonth` | trunk/date.c:149-166 | Each month starts in the Gregorian calendar when the month before has ended |
| `Calendar.InstantDetermines` | trunk/date.c:109-166 | Fields in range are determined by their instant, so that normalising has one result |
| `Calendar.KnownDates` | trunk/date.c:58-96 | The calendar gives the well-known instants of well-known dates |
| `Calendar.MonthLengths` | trunk/date.c:99-113 | Thirty days have April, June, September and November, February 28, or 29 in a leap year, and all others 31 |
| `Date.Tm.DaysInMonth` | trunk/date.c:99-113 | The table and the leap year test give the Gregorian month length |
| `Date.Tm.Normalize` | trunk/date.c:109-166 | For any integers all fields come into range and the instant stays the same |
| `Date.CountedDays` | trunk/date.c:66-78 | The days counted are those of the calendar plus an error that depends on the year and month only |
| `Date.NoDayErrorIff` | trunk/date.c:66-78 | The error is zero if and only if the month is one from 1969 to February 2100, or an earlier one in which two errors are absent or cancel |
| `Date.MonthsByYear` | trunk/date.c:66-78 | These months by year and month |
| `Date.OverrunTooLow` | trunk/date.c:67-77 | A month from 12 on is looked up in the same year, which makes the count too low whenever the month looked up is one from 1969 to February 2100 |
| `Date.Tm.Mktime` | trunk/date.c:58-96 | For any fields with a month from 0 on, seconds since 1970 up to that error, and for fields in range exactly these seconds if and only if the month is one of those; with a fixed zone of whole minutes under a day, from 1969 to February 2100, less exactly its offset |
| `Date.ModernDay` | trunk/date.c:70-75 | In these modern months the recorded day of the year is that of the calendar |
| `Date.DayMoves` | trunk/date.c:27-35 | The change of the day of the year tells the day before from the day after, across new year included |
| `Date.ComputeTz` | trunk/date.c:19-37 | For a fixed zone, exactly its offset |
| `LineEnds.CanonicalTwice` | trunk/crypt.c:490-510 | Canonicalising is idempotent and fixes exactly the texts in which every LF follows a CR |
| `LineEnds.CanonicalInvisible` | trunk/crypt.c:490-510 | Decoding the line ends does not see canonicalisation (section 5 of RFC 3156) |
| `LineEnds.LinesFixes` | trunk/handler.c:74-92 | Decoding the line ends leaves a text as it is if and only if it has no CR LF |
| `Decoding.DecodedEncode` | trunk/handler.c:252-292 | The values decoded from base64 are the encoded bytes (section 6.8 of RFC 2045) |
| `Decoding.EmittedIsBody` | trunk/handler.c:256-300 | Holding back one CR at a time decodes every CR LF to LF; in binary mode nothing is changed |
| `Decoding.Decoder.DecodeGroup` | trunk/handler.c:239-296 | One group is read, decoded and written, and the 1000-byte buffer has room for the next |
| `Decoding.Decoder.DecodeBase64` | trunk/handler.c:227-305 | Writes the body of the decoded digits for any input and length, never overrunning its buffer or reading past the length |
| `Decoding.Decoder.DecodeText` | trunk/handler.c:73-95 | Look-ahead decoding writes the text with each CR LF made LF, for any length, negative ones included, and takes one character more than the length from the input |
| `Decoding.Decoder.DecodeXbit` | trunk/handler.c:67-98 | A text is decoded so, anything else copied as it is, all of it for a negative length |
| `Decoding.NoiseIsSkipped` | trunk/handler.c:239-250 | Whatever non-digits are mixed into the base64 of x, what comes out is x, with its line ends decoded in text mode |
| `Encoding.Encoder.PutGroup` | trunk/sendlib.c:209-247 | Flushing writes the padded digits of the buffered bytes and ends on a multiple of four columns |
| `Encoding.Encoder.EncodeBase64` | trunk/sendlib.c:250-273 | What is written is the digits of the canonical text or of the bytes, in lines of exactly 72 digits but for the last, each ended, and nothing else |
| `Encoding.WriteSigned` | trunk/crypt.c:475-514 | Writes the canonical form of at most the given number of bytes |
| `Encoding.BodyRoundTrip` | trunk/sendlib.c:259-273 | Encoding and decoding again gives back binary data, and gives back a text if and only if it has no CR LF |
| `Sextets.Digit` | trunk/handler.c:56-65 | Looking up a digit of the alphabet gives back its value, and no digit is a pad or a line end |
| `Sextets.EncodeAppend` | trunk/base64.c:55-63 | Complete groups can be encoded on their own |
| `Sextets.Alphabet` | trunk/handler.c:56-65 | The digits in order are the capital letters, the small letters, 0 to 9, + and / (table 1 of RFC 2045) |
| `Sextets.OnlyDigits` | trunk/handler.c:56-65 | And no other character has a value |
| `Sextets.QuadSpells` | trunk/base64.c:52-78 | The digits of a group spell, in base 64, the number that its bytes spell in base 256, shifted by two or four bits if it is short |
| `Base64.ToBase64` | trunk/base64.c:52-78 | Writes the encoding of the prefix that fits and its NUL within the given size, and nothing beyond |
| `Base64.FittingFits` | trunk/base64.c:52-78 | The encoding of that prefix and its NUL have at most the given size, for every size from 1 |
| `Base64.AllFitIff` | trunk/base64.c:55-77 | The whole input is encoded if and only if it is empty, or shorter than a group with more than 4 bytes of room, or has more than 4(n/3) + 6 bytes of room |
| `Base64.FromBase64` | trunk/base64.c:82-117 | Returns what the text parses to, or -1, reading no further than the NUL |
| `Base64.ParseEncode` | trunk/base64.c:82-117 | Decoding undoes encoding |
| `Base64Meaning.ParsesIff` | trunk/base64.c:82-117 | A text is accepted if and only if it is made of whole groups of digits, with pads only in their last two places, up to its end or to a group that ends with a pad |
| `Base64Meaning.ParsedNumber` | trunk/base64.c:100-114 | The bytes decoded from digits without pads spell, in base 256, the number that the digits spell in base 64 |
| `Base64Meaning.GroupSpells` | trunk/base64.c:100-114 | A group decodes to the whole bytes of the number its digits spell |
| `Base64Meaning.SameOctets` | trunk/handler.c:252-292 | The decoder of bodies gets the same from every group that this one accepts |
| `Base64Meaning.MisplacedPads` | trunk/handler.c:251-278 | A pad in the first or second place of a group is taken for the digit of value 63, but that it makes the first byte 255 |
| `Base64.ToThenFrom` | trunk/base64.c:52-117 | The output decodes to a prefix of the input, to all of it exactly when the buffer was roomy; an empty output is refused |
| `Hash.HashString` | trunk/hash.c:24-39 | With 32-bit wrap-around at every step, the bucket is that of the key read as one number in base 129 and reduced once |
| `Hash.WrapAbsorbs` | trunk/hash.c:31-34 | Reducing to 32 bits on the way makes no difference |
| `Hash.KnownBuckets` | trunk/hash.c:24-39 | Two keys with their buckets, one of them after a wrap below zero |
| `Hash.Table.Insert` | trunk/hash.c:80-116 | Prepends with duplicates allowed; otherwise inserts at the first place not sorting before the key, or returns -1 if the key is there |
| `Hash.InsertIsMapUpdate` | trunk/hash.c:94-114 | In a table with ascending chains inserting without duplicates is adding to a map a key it does not have, and nothing else |
| `Hash.BuiltWithoutDuplicates` | trunk/hash.c:80-116 | A table built without duplicates has ascending chains and finds for each key its first entry |
| `Hash.Table.FindKey` | trunk/hash.h:24 | Finds the first element with the key in the bucket of the key |
| `Hash.Table.FindHash` | trunk/hash.c:118-127 | Finds the first element with the key in the given bucket |
| `Hash.Table.Resize` | trunk/hash.c:53-73 | Every element goes into the new table in the order of the old one, and all are counted |
| `Hash.ResizeKeepsElements` | trunk/hash.c:53-73 | The multiset of elements stays the same |
| `Hash.ResizeFindsLast` | trunk/hash.c:53-73 | After resizing every element is in its bucket, and a key finds its last entry instead of its first |
| `Hash.ResizeKeepsMap` | trunk/hash.c:53-73 | A table without duplicates finds the same after resizing |
| `Hash.Table.DeleteHash` | trunk/hash.c:129-148 | Unlinks and destroys, in order, the matching elements of the given bucket, leaving the element counter as it is |
| `Hash.KeptLookup` | trunk/hash.c:135-147 | Exactly the matching elements go, and other keys find what they found |
| `Hash.StayAndGo` | trunk/hash.c:135-147 | The elements that stay, and those that go, keep their order; those go that are of the key, and have the data if any is given |
| `Hash.CmpBefore` | trunk/hash.c:99 | Keys sort as in a dictionary |
| `EditLine.ApplyKeepsValid` | trunk/enter.c:288-580 | Every command leaves the cursor within the line |
| `EditLine.InsertThenBackspace` | trunk/enter.c:288-302 | Backspace takes back a typed character if and only if that is no mark on the character before |
| `EditLine.ForwardThenBackward` | trunk/enter.c:320-340 | Between whole characters moving forward and back changes nothing |
| `EditLine.BackwardThenForward` | trunk/enter.c:320-340 | And backward and forward |
| `EditLine.BackspaceIsBackwardThenDelete` | trunk/enter.c:288-408 | Backspace is moving back and deleting the character there with its marks |
| `EditLine.TransposeTwice` | trunk/enter.c:563-580 | Transposing loses no character and at the end of the line undoes itself |
| `EditLine.CaseChangesWord` | trunk/enter.c:366-391 | Changing case changes one word only and leaves the cursor behind it |
| `EditMeaning.BackspaceMeans` | trunk/enter.c:288-329 | Backspace deletes, and moving back goes over, the marks before the cursor and the character that bears them |
| `EditMeaning.ForwardMeans` | trunk/enter.c:331-340 | Moving forward goes over one character and the marks behind it |
| `EditMeaning.DeleteMeans` | trunk/enter.c:393-408 | Deleting takes the marks at the cursor, one character behind them and the marks on that |
| `EditMeaning.KillWordMeans` | trunk/enter.c:410-428 | Killing a word deletes all the space before the cursor and, before that, all letters and digits or one character that is neither |
| `EditMeaning.BackwardWordMeans` | trunk/enter.c:342-351 | Moving back a word goes over all space and then over all that is not space |
| `EditMeaning.ForwardWordMeans` | trunk/enter.c:353-364 | Moving on a word, and killing to its end, the same the other way |
| `EditMeaning.TransposeMeans` | trunk/enter.c:563-580 | Exactly two characters change places: those around the cursor, or the last or first two at the ends |
| `EditMeaning.ChangeCaseMeans` | trunk/enter.c:366-391 | The word around or after the cursor, and nothing else, becomes capital or small; for a capital its first letter does, and the others become small |
| `Enter.EnterState.Backspace` | trunk/enter.c:288-302 | Deletes the character before the cursor with the marks on it; every other character stays |
| `Enter.EnterState.DeleteChar` | trunk/enter.c:393-408 | Deletes the character at the cursor with its marks; every other character stays |
| `Enter.EnterState.KillWord` | trunk/enter.c:410-428 | Deletes the space before the cursor and, before that, letters and digits or one other character |
| `Enter.EnterState.KillEow` | trunk/enter.c:430-438 | Deletes the space at the cursor and the word after it |
| `Enter.EnterState.KillLine` | trunk/enter.c:312-314 | Empties the line |
| `Enter.EnterState.KillEol` | trunk/enter.c:316-318 | Keeps exactly the characters before the cursor |
| `Enter.EnterState.Bol` | trunk/enter.c:304-306 | The cursor goes to the beginning, the text stays |
| `Enter.EnterState.BackwardChar` | trunk/enter.c:320-329 | The cursor goes back over one character and its marks, the text stays |
| `Enter.EnterState.ForwardChar` | trunk/enter.c:331-340 | The cursor goes on over one character and its marks, the text stays |
| `Enter.EnterState.BackwardWord` | trunk/enter.c:342-351 | The cursor goes back over space and the word before it, the text stays |
| `Enter.EnterState.ForwardWord` | trunk/enter.c:353-364 | The cursor goes on over space and the word after it, the text stays |
| `Enter.EnterState.ChangeCase` | trunk/enter.c:366-391 | The word the cursor is in, or the next, changes case, only its first letter being made a capital; the cursor ends behind it |
| `Enter.EnterState.Transpose` | trunk/enter.c:563-580 | The two characters before the cursor change places, the cursor having moved on first unless at the end |
| `Enter.EnterState.SelfInsert` | trunk/enter.c:647-656 | The character comes before the cursor, the buffer growing as needed |
| `Enter.EnterState.ReplacePart` | trunk/enter.c:148-170 | The characters from the given place to the cursor are replaced, and the suffix survives |
| `Enter.EnterState.Redraw` | trunk/enter.c:234-248 | The window stays where it is if the cursor is inside it, or else starts half its width before the cursor; after a jump to the end of the line the end is shown |
| `Enter.EnterState.Draw` | trunk/enter.c:250-261 | Draws the characters from the start of the window that fit, and puts the cursor at the width of those before it |
| `Enter.EnterState.WidthCeiling` | trunk/enter.c:71-80 | The number of characters that fit into the given columns |
| `Window.WidthIsWritten` | trunk/enter.c:33-69 | The width reckoned with is that of what is written, of the character or of its escape |
| `Window.CentredHalf` | trunk/enter.c:246-248 | A window that is moved has half its width or more before the cursor, and without its first character less |
| `Window.ShownStays` | trunk/enter.c:243-245 | A window that shows the cursor stays where it is |
| `Window.RedrawShows` | trunk/enter.c:234-250 | In a window of at least 19 columns, or of one, each redraw leaves the cursor inside it |
| `Window.CursorIsDrawn` | trunk/enter.c:234-261 | In such a window the cursor then stands on, or right behind, what is drawn |
| `Window.AlwaysShowsIff` | trunk/enter.c:234-250 | That holds for every line if and only if the window has at least 19 columns, or one |
| `Tokenizer.Buffer.Add` | trunk/buffer.c:87-100 | The new characters follow the old, a NUL follows them, and all fit |
| `Tokenizer.ExtractToken` | trunk/buffer.c:102-273 | Collects the token the specification collects, or fails, or stops at the first command or variable |
| `Tokenizer.OneTurn` | trunk/buffer.c:112-269 | One character, escape, caret or quote at a time, with the same branches |
| `Tokenizer.ThreeDigits` | trunk/buffer.c:156-165 | Any three digits after a backslash, outside single quotes, are one character: that with their number in base eight, 8 and 9 counting as digits |
| `TokenMeaning.PlainWord` | trunk/buffer.c:111-122 | A word of ordinary characters, up to the end or a character that the flags make an end, is the token; space around it is skipped |
| `TokenMeaning.Quoted` | trunk/buffer.c:124-128 | In single quotes every character means itself, in double quotes every one but backslash, backtick and dollar |
| `TokenMeaning.ControlLetters` | trunk/buffer.c:128-154 | Backslash r, n, t, f and e are CR, LF, tab, form feed and escape |
| `TokenMeaning.ControlCharacters` | trunk/buffer.c:128-139 | Backslash c and a character is its control character, of a letter in any case |
| `TokenMeaning.EscapedCharacter` | trunk/buffer.c:155-166 | Any other character after a backslash means itself, unless it begins three digits |
| `TokenMeaning.CaretAdds` | trunk/buffer.c:169-183 | A caret before a letter, [ or a caret, and before anything else |
| `TokenMeaning.CommandsAndVariables` | trunk/buffer.c:184-269 | A backtick begins a command, and a dollar before a letter or a brace a variable, except in single quotes |
| `Tokenizer.WriteSafeAddress` | trunk/alias.c:167-175 | Guards exactly the five characters the tokenizer would interpret |
| `Tokenizer.SafeRoundTripIff` | trunk/alias.c:167-175 | A written address is read back without reaching a command or variable, and unchanged if and only if it has no leading space and, unless comments are kept, no # |
| `Color.Allocator.Alloc` | trunk/color.c:192-254 | Counts a live pair once more, or takes the least unused index and gives it the colours, the default ones as -1, or fails and still counts as used |
| `Color.Allocator.FreeIndex` | trunk/color.c:214-226 | The search ends at the least unused index, which is at most one more than the number of entries |
| `Color.Allocator.Free` | trunk/color.c:256-288 | Counts the pair once less and removes it at zero |
| `Color.Pigeonhole` | trunk/color.c:214-226 | If all smaller indices are in use, the index is at most one more than the number of entries |
| `Color.RunBalanced` | trunk/color.c:192-288 | After any run pairs and indices are distinct and within bounds, every live index shows the colours of its pair, each count is allocations less releases, and UserColors is the live pairs plus the failed allocations |
| `Color.LiveIff` | trunk/color.c:192-288 | A pair is in the list if and only if it was allocated more often than released |
| `Color.FailsIff` | trunk/color.c:210-212 | An allocation fails if and only if the pair is not live and the live pairs and earlier failures together reach the number of pairs |
| `Color.LiveShows` | trunk/color.c:192-254 | A live pair is shown in its own foreground and background |

## Left out

- The curses screen, menus, prompts, the index and compose event loops, the browser, the help page and the parsing of
  colour commands have no algorithm of their own beyond the modules above.
- PGP, S/MIME and GPGME, iconv conversion, mailcap and filter processes: calls into other programs and libraries.
- text/enriched wrapping, quoted-printable, uudecoding, account, buffy, history and hook code are not part of this
  model.
- Dotlock.DisciplinedIsSafe: runs in which a private file grows are not modelled, because nothing writes to it. File
  descriptors, symbolic links, privileges and the stat comparison of dotlock.c are left out too: only the steps on
  the directory are kept, each system call being one atomic step.
- KeyInput.Input.Getch: does not model OPTUNBUFFEREDINPUT, which passes over pushed-back events while a question is
  asked, nor KEY_RESIZE and the interrupt prompt.
- KeyInput.Input.PushString: the number of a function key is unbounded, and characters are their codes.
- Keymap.Keymap.Bind: takes the key sequence as parsed; parsekeys, timeouts and the bind command are left out. An empty
  sequence, which the bind and macro commands refuse, may be bound but not looked up.
- Dokey.KmDokey: mutt_flushinp empties all pending input, the keys not yet typed included.
- Alias.ExpandAliases: takes the password database as a function from user names to gecos names; IDNA is not modelled.
- CopyHeader.CopyHdr: what RFC 2047 and address decoding make of a field is a parameter, and write errors are left out.
- HeaderFields.CollectingPathKeeps: abbreviated recipient lists are covered by HeaderLines.FieldCollected and
  CopyHeader.CollectFields only, and so in HeaderText.HeaderCopied.
- HeaderText.HeaderCopied: reordered fields are covered by HeaderFields.ReorderedOutput; texts that do not end with a
  blank line by HeaderFields.CollectingPathKeeps and HeaderFields.FastPathWrites.
- CopyAttach.CopyMessage: the text of the copied header is a parameter, and write errors are left out.
- Hcache.HcacheRestore: the flag and the path that are taken over from an older header at the end are left out. HEADER
  and BODY structs are blocks of fixed size, and texts, counters and offsets stay below 2^31.
- Hcache.HcacheDump: the databases, the MD5 path names and the computation of the checksum are left out, and so are
  dump_buffer and restore_buffer, which no record uses.
- Flags.Context.Update: the colour of the index line and the redrawing of the sidebar are left out.
- Threads.ThreadSetFlag: whether the folder is sorted by threads is a parameter, and the message that it is not is left
  out.
- Date.Tm.Mktime: time_t is unbounded, and a negative month, for which the table has no entry, is excluded.
- Decoding.Decoder.DecodeBase64: conversion of character sets and the output prefix are left out.
- Decoding.Decoder.DecodeText: conversion of character sets and the output prefix are left out.
- Encoding.Encoder.EncodeBase64: the characters come unconverted from the input.
- Hash.Table.Insert: the data pointer is a number, 0 standing for NULL, and keys are compared as C strings without
  locale.
- Hash.Table.Resize: chains, like the colour list and address lists, are sequences held in fields: the pointers between
  their elements, and the freeing of memory, are not modelled. The key-binding list and the thread tree are linked
  objects.
- Base64.ToBase64: shifts and masks, here and in the other codecs and the hash function, are written as products,
  quotients and remainders.
- Tokenizer.ExtractToken: stops at the first backtick command or variable, because what these expand to is re-scanned
  and has no bound.
- Enter.EnterState.ChangeCase: the character classes of the locale are functions that do not change.
- Enter.EnterState.ReplacePart: the replacement comes as wide characters, their conversion from the multibyte text is
  left out, and so are completion, history and multibyte input.
- Enter.EnterState.Redraw: only where the window starts; what is drawn is the contract of Enter.EnterState.Draw.
- Color.Allocator.Alloc: the S-Lang variant, which sets colours by name, is left out.
