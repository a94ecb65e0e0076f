# SklaffKOM engines in Dafny

SklaffKOM is a bulletin board system. This project models the parts of it that work on lists, byte
buffers and numbered files, and proves what they keep over every input and every run. `dafny verify
dfyconfig.toml` checks all of it.

## What is modelled

* **Echomail toss engine** (`FtnIndex`, `FtnPlan`, `FtnImport`, `FtnSpool`, `FtnScan`, `FtnEcho`,
  `FtnStore`, `FtnDelivery`, `FtnLock`, `FtnWrap`, `ConfFile`). The multi-pass planner of the dry run and the multi-pass
  importer are two methods over two different states. "Importable" is defined apart from both, by reply
  chains, and shown to be a least fixpoint; each method is proved to select exactly it, and the two to
  select and hang the same messages. The importer grows a class `Conference` whose files are then read
  by the model of `get_text_entry()` and by the MSGID scanner. Processes under the lock file are a state
  machine with one file operation a step.
* **Stored texts** (`TextReader`, `FtnThreads`). The reader decodes a mutable buffer in place; it is proved
  to read back what the tosser stored, thread links included.
* **InterBBS oneliner cache** (`IbolDb`, `IbolTail`, `IbolImport`, `IbolHistory`, `IbolRuns`,
  `IbolIncremental`, `IbolWrap`). Record format, backward reader, incremental importer and rebuild, and all
  histories of them with crashes at any byte of an append.
* **Conferences and read intervals** (`FirstText`, `ConfsFile`, `ConfsUpdate`).
* **Codecs** (`Utf8`, `FtnMsg`, `FtnMsgOut`, `FtnMsgRound`, `MailWords`, `MailHeader`, `QuoteWrap`,
  `FtnAddress`, `FtnConfig`, `FtnConfigMeaning`, `FtnConfigText`).

`CText` holds the C library idioms (`strtol`, `strchr`, `printf("%ld")`) and the facts about them.

## Conventions

A `char` is one byte and a C string a `string` without NUL. Integers are unbounded except where the code
cuts them (serials modulo 65536, the 64-bit time stamp, the 16-bit header numbers). A directory is a map
from numbers to bytes or a list of parsed files; reading a given `.MSG` file always gives the same message.
Clock values, the AKA, the area tag and the two signing lines of an export are parameters. Allocation and
writes succeed, except where a process dies in `FtnLock` and `IbolRuns`. A linked list is a `seq`
that the method reassigns, newest entry first where the code inserts at the head; `ghost` parameters and results only name
what a loop has done so far.

## What the code does not do

Where an expected property fails, the code is kept and the exact condition is proved.

* The MSGID scanner reads lines in chunks of 158 characters. An imported MSGID of more than 147 characters,
  or one that starts with white space `isspace()` knows, is not recognised and its message is imported again
  by the next run (`FtnEcho.RescannedAnyIff`, `FtnImport.RescanIdleIff`, `FtnImport.ReimportIdleIff`).
* A subject that is a MSGID line itself ("FTN-MSGID: x") is taken for the MSGID of its text: the import is
  indexed under "x", is imported again, and replies to "x" are hung under it (`FtnEcho.SubjectTakenForMsgid`,
  `FtnEcho.RescannedIff`, `FtnEcho.ReplyToImportedIff`).
* A local text that quotes a MSGID line ("FTN-MSGID: x") is indexed under "x" and not under the MSGID of its
  export, so its echo is imported as a new text (`FtnEcho.QuotedTagHidesEcho`, `FtnDelivery.EchoOfTextDueIff`).
* A ring of replies, a self-reply included, is imported after all when another importable message repeats the
  MSGID of one of its members (`FtnPlan.SelfReplyImportable`, `FtnPlan.RingImportableIff`).
* The dry run announces messages with an empty or repeated MSGID that the real run skips
  (`FtnImport.DryRunSelectsSameIff`).
* A file with a negative number ("-5.msg") is sorted in its place only when it is listed behind lower numbers
  only (`FtnSpool.SortedIff`).
* Texts 65536 numbers apart get the same MSGID (`FtnScan.LocalMsgidsCollideIff`).
* A quoted or prose line whose rows do not fit 4096 bytes is stored without its end
  (`FtnWrap.WrappedWholeIff`).
* The oneliner cache writes times before 1970 but does not read them. Such a MSGID is missing after the
  checkpoint has passed it, and an update writes it again (`IbolIncremental.RebuildCoversIff`,
  `IbolIncremental.AlwaysCoveredIff`, `IbolIncremental.IncrementalEqualsRebuildIff`).
* `first_text()` misses the lowest text behind gaps of four numbers or more (`FirstText.GapLimit`).
* `replace_confs()` returns an empty text when the conference is not listed (`ConfsUpdate.ReplaceConfs`).
* An interval that starts below 0 is read back with its sign lost (`ConfsFile.ReadOfPrinted`), and an entry
  behind an empty first line is read twice (`ConfsFile.BehindOtherLine`).
* Quoting splits a word of 71 characters behind a single leading blank, although it would fit a line of its
  own (`QuoteWrap.QuoteKeepsWordsIff`).
* A text whose subject holds a line end is not read back as it was stored (`FtnThreads.StoredTextReadsIff`).
* A stored line is shown cut at 78 characters, and with every known "=XX" in it decoded
  (`FtnThreads.StoredLinesShownIff`).
* A `.MSG` keeps identifiers of at most 254 bytes, unless a control line of the body overrides them, and text
  fields without white space at their end (`FtnMsgRound.MessageRoundTripIff`).

## Model

| member | source | states |
|---|---|---|
| FtnIndex.AddSkref | ftntoss.c:2471-2488 | an entry goes to the head of the index, unless it has no MSGID or no text number |
| FtnIndex.FindSkref | ftntoss.c:2490-2504 | the loop finds the text number of the first entry for a MSGID, 0 without one or for an empty MSGID |
| FtnIndex.LookupFinds | ftntoss.c:2471-2504 | a MSGID is found exactly when an entry carries it, and what is found is the entry nearest the head |
| FtnIndex.LooksLikeReplyIff | ftntoss.c:2133-2160 | a subject is taken for a reply exactly when blanks, then Re: with either letter large or small, stand at its start |
| FtnPlan.ImportableIsLeast | ftntoss.c:2843-2996 | the importable messages (own MSGID not stored, REPLY chain reaching a stored text or a thread start) are the least set closed under the two placing rules |
| FtnPlan.OrderIrrelevant | ftntoss.c:2879-2960 | what is importable depends on which messages the spool holds, not on the order of the list |
| FtnPlan.UnfoundedNeverImportable | ftntoss.c:2931-2960 | replies that only ever lead to one another or to nothing are never importable |
| FtnPlan.RingImportableIff | ftntoss.c:2931-2960 | a member of a ring of replies, a self-reply included, is importable if and only if an importable message outside the ring carries the MSGID of a member |
| FtnPlan.SelfReplyImportable | ftntoss.c:2931-2960 | a self-reply is importable as soon as the spool holds a thread start with its MSGID |
| FtnPlan.StartImportableIff | ftntoss.c:2894-2896 | a message without REPLY is importable in safe mode if and only if it is in the spool, its MSGID is not stored and its subject is not marked as a reply |
| FtnPlan.FindPlanrefByFilename | ftntoss.c:2540-2554 | true exactly when a plan carries the file name |
| FtnPlan.FindPlanrefByMsgid | ftntoss.c:2556-2570 | the planned number of a plan with that MSGID; 0 exactly when there is none or the MSGID is empty |
| FtnPlan.PlanFirstPass | ftntoss.c:2879-2925 | pass 1 plans thread starts and replies to stored texts, each once, numbered without gap, and counts both classes |
| FtnPlan.PlanReplyPass | ftntoss.c:2931-2960 | a later pass only extends the plan; its counters are the growth of the plan, it reports a change exactly when there is one, and without a change no reply to a planned message is left |
| FtnPlan.PlanOrphans | ftntoss.c:2962-2982 | include-unsafe plans every unstored message that is left, at the top |
| FtnPlan.BuildImportPlan | ftntoss.c:2843-2996 | the dry run terminates; the safe plan holds exactly the importable messages, so no message without REPLY whose subject is marked as a reply, the unsafe plan every unstored one, once; numbers are first..first+planned-1; planned is the sum of the four counters; every parent is a stored text or an earlier plan whose MSGID is the REPLY |
| FtnPlan.PlanIsImportable | ftntoss.c:2931-2960 | a safe plan that no pass can extend holds exactly the importable messages |
| FtnPlan.ParentBelowChild | ftntoss.c:2904-2952 | every non-zero parent number lies below the number of its child |
| FtnImport.FindMsgref | ftntoss.c:2379-2393 | true exactly when a spool message has that non-empty MSGID |
| FtnImport.UnsafeReason | ftntoss.c:4353-4391 | which of the three reasons is noted for an unsafe import, and when none is |
| FtnImport.ImportOne | ftntoss.c:4330-4410 | one message: imported exactly when it is due by the index at hand; the index, the number, the parent and the files are then those of send_ftn() |
| FtnImport.ImportPass | ftntoss.c:4329-4414 | one pass extends the run; fewer messages wait after a change, and nothing is due without one |
| FtnImport.ImportAll | ftntoss.c:4322-4417 | the passes terminate in an index that leaves nothing due; text numbers, files and index are those of the run, and thread links stay symmetric; a safe run imports no message without REPLY whose subject is marked as a reply |
| FtnImport.NoMarkedStart | ftntoss.c:4353-4357 | no message of a safe run has neither a REPLY nor an unmarked subject |
| FtnImport.ImportedOnce | ftntoss.c:4348-4352 | no two imports of a run carry the same MSGID |
| FtnImport.ImportedIsImportable | ftntoss.c:4322-4417 | a safe run imports only importable messages |
| FtnImport.ImportableIsStored | ftntoss.c:4322-4417 | after a safe run every importable MSGID is stored |
| FtnImport.ImportsExactlySelected | ftntoss.c:4322-4417 | the MSGIDs a run imports are exactly those of the importable messages in safe mode, of all unstored ones in unsafe mode |
| FtnImport.DryRunSelectsSameIff | ftntoss.c:2879-2960 | in either mode dry run and real run select the same messages if and only if the planned MSGIDs are non-empty and pairwise distinct |
| FtnImport.ImportParent | ftntoss.c:4369-4376 | the real run hangs a message under the stored text, or under the import made before it that carries its REPLY |
| FtnImport.DryRunHangsSame | ftntoss.c:4369-4376 | then both hang every message alike: at the top, under the same stored text, or under the same spool message |
| FtnImport.LookupGrown | ftntoss.c:4399-4403 | the grown index finds the newest import with the MSGID, else the old entry |
| FtnImport.SettledRunIsEmpty | ftntoss.c:4322-4417 | from an index that leaves nothing due a run imports nothing |
| FtnImport.IdleIffSettled | ftntoss.c:4322-4417 | every next run is idle exactly when nothing is due |
| FtnImport.SeenIff | ftntoss.c:2668-2748 | an import is read back under its own MSGID exactly when nothing else is found in front of its MSGID line and the scanner holds it; with header fields of one line only the subject can stand in its way |
| FtnImport.ScanOfRun | ftntoss.c:2668-2748 | scanning the files a run left gives the old index with what each import is read back under in front |
| FtnImport.RescanIsGrown | ftntoss.c:2668-2748 | when all MSGIDs survive the scanner, that is the index the run ended with |
| FtnImport.RescanIdleIff | ftntoss.c:4245-4495 | the run after a settled one, from a fresh scan, is idle if and only if every imported MSGID is read back from some text and, in safe mode, no text read under a wrong MSGID makes a message left out look like a reply to it |
| FtnImport.ReimportIdleIff | ftntoss.c:4245-4495 | from the files themselves: when wrong readings name nothing in the spool, the next run is idle if and only if every imported MSGID survives the scanner |
| FtnImport.ReimportIsNoOp | ftntoss.c:4245-4495 | so a second import of the same spool imports nothing when the imported MSGIDs survive the scanner |
| FtnSpool.Insert | ftntoss.c:2448-2465 | the inner loop: one message is inserted where the scan of the sorted list stops |
| FtnSpool.SortByNumber | ftntoss.c:2426-2469 | the outer loop: the messages are inserted one after the other |
| FtnSpool.FileNumberIs | ftntoss.c:2405-2424 | the number of any file name: that of its digits when exactly .msg follows them, in capitals or not, else 0 |
| FtnSpool.SortedIff | ftntoss.c:2426-2469 | the result is a permutation in the order of the numbers if and only if each name with a negative one is listed behind lower numbers only; whatever the names, those with other numbers are in order |
| FtnSpool.SortIsStable | ftntoss.c:2426-2469 | files of the same number stay in the order in which they are listed |
| FtnSpool.ListingIrrelevantIff | ftntoss.c:2438-2446 | two listings of a spool are sorted alike if and only if they list files of the same number, if any, in the same order, so that planning does not depend on readdir() |
| FtnSpool.AscendingUnique | ftntoss.c:2426-2469 | two spools in the order of their numbers, with the same files in the same order under each number, are the same |
| FtnScan.SerialsCollideIff | ftntoss.c:557-571 | two (conference, text) pairs share a serial exactly when both numbers agree modulo 65536 |
| FtnScan.LocalMsgidsCollideIff | ftntoss.c:506-571 | under one AKA two local texts get the same MSGID exactly then |
| FtnScan.LocalMsgidSays | ftntoss.c:506-571 | the MSGID of a local text is an address that parses to the AKA, a space, and eight hexadecimal digits without capitals: four for the conference, four for the text, modulo 65536 each |
| FtnScan.FindMsgid | ftntoss.c:2707-2715 | the chunked loop finds the first MSGID line of a file as the scanner sees it |
| FtnScan.ScannedBehindTag | ftntoss.c:2641-2666 | behind each of its three tags the scanner takes what follows, without white space at the start, up to the line end |
| FtnScan.ScanExistingSklMsgids | ftntoss.c:2668-2748 | the index holds each text under its tagged MSGID or, for a local text, its regenerated one, newest first |
| FtnScan.ScanGood | ftntoss.c:2668-2748 | every entry has a MSGID and a number of an existing range |
| FtnScan.TaggedSeen | ftntoss.c:2641-2666 | an FTN-MSGID line gives the scanner the first 147 bytes of its MSGID, and an export the first 1012, of which it keeps 255, without white space at the start; when that leaves nothing, reading goes on behind it |
| FtnScan.TaggedLineIff | ftntoss.c:2641-2666 | an FTN-MSGID line gives its MSGID back exactly when it fits one chunk and the MSGID does not start with white space |
| FtnEcho.RescannedAnyIff | ftntoss.c:2668-2748 | an imported text, whatever its header fields and whatever links are appended, is indexed under its own MSGID exactly when what the scanner finds in front of the MSGID line is nothing or that MSGID, and in the first case the MSGID has at most 147 characters and begins with ink |
| FtnEcho.RescannedIff | ftntoss.c:2668-2748 | with header fields of one line, what is found in front is what the subject gives as a line of its own |
| FtnEcho.SubjectTakenForMsgid | ftntoss.c:2707-2715 | a subject that is a MSGID line is taken for the MSGID of its text |
| FtnEcho.FrontOfPlain | ftntoss.c:2707-2715 | in header fields of one line each only the subject can pass for a MSGID line |
| FtnEcho.ReaderSees | ftntoss.c:3613-3652 | whatever its header fields, an imported text gives either reader what stands in front of the MSGID line, else the MSGID as far as the reader holds it, without white space at its start, else what follows |
| FtnEcho.LinkKeepsIndex | ftntoss.c:4990-5027 | a comment link leaves the index entry of the text it is appended to alone |
| FtnEcho.AuthorIs | ftntoss.c:3558-3576 | the author of a header of up to seven numbers is the second one; a header of fewer than four is rejected |
| FtnEcho.StoreExtendsIndex | ftntoss.c:2668-2748 | storing a text puts its entry at the head of the scanned index and changes no other |
| FtnEcho.LookupIsNewest | ftntoss.c:2490-2504 | the scanned index finds the newest text indexed under a MSGID |
| FtnEcho.IndexedAsLocalIff | ftntoss.c:2707-2745 | a text by a local author is indexed under the MSGID its export carries if and only if the scanner finds no other MSGID in it |
| FtnEcho.EchoRecognisedIff | ftntoss.c:2668-2748 | the MSGID of an export is in the scanned index if and only if the scanner finds no other in the exported text or another text is indexed under it; it stands for that text if and only if the former and no newer text has it |
| FtnEcho.QuotedTagHidesEcho | ftntoss.c:2707-2745 | a local text with the line "FTN-MSGID: x" is indexed under x, and the MSGID of its export is not known |
| FtnEcho.ReplyIndexesBackIff | ftntoss.c:3959-3973 | the REPLY an export writes is found under the parent text exactly when the file of the parent is there, both readers agree on its MSGID and no newer text is indexed under it |
| FtnEcho.ReadersAgreeOnLocalIff | ftntoss.c:3959-3973 | the two readers agree on a text by a local author exactly when what each finds in it, or regenerates without a find, is the same |
| FtnEcho.ReadersFindSame | ftntoss.c:3613-3652 | they find the same in every text whose lines fit the chunk of the scanner and hold no carriage return and no tag that only the scanner knows |
| FtnEcho.ReadersAgreeOnImportedIff | ftntoss.c:3613-3652 | on an imported text, whatever its header fields, they agree if and only if they read it alike; with nothing in front and ink first, if and only if its MSGID has at most 147 characters |
| FtnEcho.ReplyToImportedIff | ftntoss.c:3959-3973 | so the REPLY of a comment to an imported text, whatever its fields and however long its MSGID, finds that text if and only if both see the same there and no newer text has it |
| FtnDelivery.ReaderDelivers | ftnmsg.c:292-325 | whatever its bytes, a file that is read gives fields within their sizes, identifiers of one line within 255 bytes and a body of whole lines |
| FtnDelivery.SpoolDelivered | ftntoss.c:4322-4417 | a run over messages so read meets what the re-import results ask of it |
| FtnDelivery.LocalMsgidFits | ftntoss.c:506-571 | the MSGID of a local text is one line of at most 32 bytes that a .MSG keeps |
| FtnDelivery.EchoDueIff | ftntoss.c:3956-3957 | the file an export writes comes back with the MSGID of its text, or that of the last control line of its body that sets one, and is due if and only if no stored text is indexed under that MSGID and, in safe mode, what it answers is there |
| FtnDelivery.EchoOfTextDueIff | ftntoss.c:3956-3957 | for a body without control lines: the echo is due if and only if the scanner finds another MSGID in the exported text and no other text is indexed under that of the export |
| FtnDelivery.DeliveredReimportIff | ftntoss.c:4245-4495 | importing a spool of files once more is idle if and only if the subject and MSGID of every import let it be recognised, where wrong readings name nothing in the spool |
| FtnStore.CountBodyLines | ftntoss.c:3014-3029 | the number of line ends |
| FtnStore.Conference.SendFtn | ftntoss.c:5029-5134 | one text more, numbered last_text + 1, with its link appended to the parent; a threaded conference stays threaded |
| FtnStore.Conference.AppendCommentLink | ftntoss.c:4990-5027 | the link line is appended to the parent file, or nothing for a parent of 0 |
| FtnStore.ChildrenExact | ftntoss.c:5056-5126 | the links of a text are ascending and exactly the texts that answer it |
| FtnStore.StoreKeepsThreads | ftntoss.c:5056-5126 | files that describe a list of posts describe one post more after it is stored |
| TextReader.DecodeLine | buf.c:365-432 | a line is decoded in place; the characters behind it stay |
| TextReader.EscapedIff | buf.c:373-432 | which =XX the reader knows, and what each stands for in a subject and in a body line |
| TextReader.WrittenIsShown | buf.c:365-432 | however a line is written, in plain characters and codes for others, it is shown as these: the first 78 of a body line, the first 69 of a subject |
| TextReader.ReadBodyLines | buf.c:364-446 | exactly `size` lines are read |
| TextReader.ReadComments | buf.c:448-486 | the comment list is read to the end of the text |
| TextReader.GetTextEntry | buf.c:241-488 | the reader, over a mutable buffer, delivers header, subject, body and comments of the text as it was |
| TextReader.ShownAsIsIff | buf.c:365-432 | a body line is shown as it is stored if and only if it has at most 78 characters and no "=XX" the reader knows |
| FtnThreads.StoredTextReads | buf.c:241-488 | get_text_entry() of a text stored by send_ftn(), links appended, gives its numbers, subject, exactly its body lines and its links |
| FtnThreads.AnyTextReads | buf.c:241-488 | whoever wrote a text, each of its seven header numbers comes back in its own field, the kind behind them when the author is not 0, the subject and body lines as shown, and each comment link with its author |
| FtnThreads.EmptyLineIgnored | buf.c:448-486 | empty lines between comment links are passed over |
| FtnThreads.ImportedLines | ftntoss.c:4803-4893 | the lines of an imported text: five that are always there, one each for MSGID, REPLY, character set and reason when there is one, an empty one, and the wrapped body |
| FtnThreads.ThreadsSymmetric | ftntoss.c:5029-5134 | after any sequence of send_ftn() calls, each text reads back with exactly `size` lines, its comment list is the ascending list of texts whose parent it is, and parents lie below children |
| FtnThreads.SubjectLineEndShifts | buf.c:364-369 | an imported text whose subject holds line ends, one or more, is not read back as it was stored |
| FtnThreads.StoredTextReadsIff | buf.c:241-488 | an imported text reads back with its numbers, subject, body lines and links if and only if its subject is one line |
| FtnThreads.StoredLinesShownIff | buf.c:364-446 | the reader gives the lines of an imported text as they are stored if and only if each has at most 78 characters and no known "=XX" |
| ConfFile.ParseConfLine | ftntoss.c:2162-2197 | seven colon-separated numbers and a name, or an error |
| ConfFile.LineRoundTripIff | ftntoss.c:2162-2197 | a printed conference line reads back with its numbers, and with its name if and only if that is one line of at most 78 bytes |
| ConfFile.NameRead | ftntoss.c:2186-2194 | the name is the first 78 bytes up to a line end |
| ConfFile.RewriteConfLastText | ftntoss.c:4896-4988 | the file with the numbered lines rewritten and the number given out, or an error when the conference is not listed |
| ConfFile.RewriteBumps | ftntoss.c:4939-4959 | every line of the conference counts up by one and every other line stays |
| ConfFile.OneNumberGivenOut | ftntoss.c:4896-4988 | with distinct conference numbers exactly one entry changes, by one, and its new last text is given out |
| FtnLock.NextMsgNumber | ftntoss.c:918-967 | one more than the highest listed number, at least 2 |
| FtnLock.ListedIff | ftntoss.c:935-948 | what counts as a .msg file and its number: white space, a sign or none, digits, then exactly .msg or .MSG |
| FtnLock.NextNumberIs | ftntoss.c:918-967 | the number picked is 2 when no listed number is above 1, else one more than the highest |
| FtnLock.NextNameIsNew | ftntoss.c:918-967 | that number names no file of the directory |
| FtnLock.InterleavingsSafe | ftntoss.c:2071-2131 | under every interleaving of processes that may die anywhere: one inside at most, every text at or below last_text, no text or .msg file lost or overwritten |
| FtnLock.LockComesFree | ftntoss.c:2071-2131 | as long as nobody dies under the lock, the lock file is there exactly while somebody is inside, and a process that tries gets in exactly when nobody is |
| FtnLock.InsideCanLeave | ftntoss.c:2106-2131 | wherever it is, the process inside can leave in two steps or less, and the lock is then free with nothing else changed |
| FtnLock.StoreSession | ftntoss.c:4896-5027 | a process that gets in and stores a text gives it the number above last_text, appends the link to the parent, changes nothing else and leaves the lock free |
| FtnLock.ExportSession | ftntoss.c:918-967 | one that exports writes one new .msg file, changes nothing else and leaves the lock free |
| FtnLock.OrphanedLockBlocks | ftntoss.c:2071-2106 | after a death inside nobody gets in until the lock is removed by hand |
| FtnWrap.FtnQuotePrefix | ftntoss.c:622-723 | the quote prefix of a line, found by the three scanning loops |
| FtnWrap.MarksAreQuote | ftntoss.c:622-723 | ">" marks behind blanks, each with a space behind it or not, are a quote; the prefix is all of them and one blank, within 31 bytes |
| FtnWrap.InitialsAreQuoteIff | ftntoss.c:622-723 | one to three letters and marks are a quote exactly when a blank or the end of the line follows; the prefix is then the whole of it |
| FtnWrap.OthersAreNoQuote | ftntoss.c:622-723 | any other line has no prefix |
| FtnWrap.KeptIff | ftntoss.c:820-916 | stored as they are: lines of at most 78 bytes, and longer ones that are no quote and begin with a bar, a star, a dash or a control-A; a longer one that begins with ">" is wrapped |
| FtnWrap.AppendWrappedSegment | ftntoss.c:725-818 | the buffer receives the rows until one does not fit |
| FtnWrap.PiecesWithinColumns | ftntoss.c:725-818 | every row starts with ink and stays within 78 columns, prefix included |
| FtnWrap.PiecesKeepInk | ftntoss.c:725-818 | breaking a line loses and invents no non-blank character |
| FtnWrap.WrappedWholeIff | ftntoss.c:725-818 | a line is stored whole exactly when its rows leave two bytes of the buffer free |
| FtnWrap.WrapFtnBodyForSkom | ftntoss.c:820-916 | the body is wrapped line by line, kept lines verbatim |
| FtnWrap.BodyWrapped | ftntoss.c:820-916 | a body is wrapped line by line; what follows its last line end, nothing included, is a line, too |
| FtnWrap.LineConserved | ftntoss.c:820-916 | each stored line is its rows behind the repeated quote prefix, with its ink unchanged and no re-flowed row past column 78 |
| FtnWrap.WrapEndsLine | ftntoss.c:820-916 | a body of whole lines is stored with a final line end |
| IbolDb.WriteEscaped | iboldb.c:58-98 | the field with colons, backslashes, tabs and line ends escaped |
| IbolDb.WriteRecord | iboldb.c:100-118 | the line of a record, field by field |
| IbolDb.CodesIff | iboldb.c:58-98 | which character is written as which code, and which code is read as which character |
| IbolDb.ParseDecodedField | iboldb.c:130-197 | the cursor loop decodes one field into a bounded buffer, or fails |
| IbolDb.IbolDbParseLine | iboldb.c:199-245 | the record of a line, or none |
| IbolDb.RecordRoundTripIff | iboldb.c:100-245 | what is written is one line with its only line end last; it reads back as the record if and only if the time is not negative and the MSGID not empty |
| IbolDb.FieldsReadIff | iboldb.c:199-245 | five fields, whatever they say and however long, are a record if and only if the stamp has at most 63 bytes and is valid, the MSGID 1 to 255, author, source and text at most 127, 255 and 4095 |
| IbolDb.StampReads | iboldb.c:219-225 | a 64-bit time is printed in at most 20 bytes and read back; it is accepted exactly when it is not negative |
| IbolDb.ValidStampIff | iboldb.c:219-225 | a number of any size is accepted exactly when it is not negative and fits 64 bits |
| IbolDb.TornLine | iboldb.c:199-245 | the beginning of a record line reads as nothing or as the record with a shortened text |
| IbolTail.ReadPreviousPhysicalLine | iboldb.c:279-351 | the last non-blank line before the scan position |
| IbolTail.ScanBackwards | iboldb.c:392-416 | the newest valid records, newest first, damaged lines skipped |
| IbolTail.ReverseInPlace | iboldb.c:427-437 | the array is reversed in place |
| IbolTail.ReadRecent | iboldb.c:353-442 | exactly the last min(limit, valid) valid records of the file, in file order |
| IbolTail.ReadLatest | iboldb.c:444-466 | the last valid record, if any |
| IbolTail.ViewsAgree | iboldb.c:279-351 | without CR bytes the backward reader and a forward scan see the same records |
| IbolImport.IdSet.Contains | ibolimport.c:384-396 | membership |
| IbolImport.IdSet.Add | ibolimport.c:398-422 | the MSGID is appended unless it is there |
| IbolImport.LoadCacheIds | ibolimport.c:437-483 | exactly the MSGIDs of the valid lines are added |
| IbolImport.ImportFiles | ibolimport.c:727-818 | the records of new MSGIDs are appended in spool order; failure is reported exactly for an unparsable file |
| IbolImport.Importer.RunImport | ibolimport.c:630-871 | cache and checkpoint become those of the update or the rebuild; an update with a checkpoint above the last file of the spool, or with a checkpoint and no cache, changes nothing and fails, and no other update is refused; no update lowers the checkpoint; the return code is 0 exactly when nothing was refused or unparsable |
| IbolImport.HighestIsMax | ibolimport.c:663-671 | the last file of an ascending spool is the highest |
| IbolHistory.FreshConcat | ibolimport.c:788-818 | de-duplication distributes over concatenation of spools |
| IbolHistory.FreshIsNew | ibolimport.c:788-818 | fresh records carry new MSGIDs, each once, and no entry is left out |
| IbolHistory.RecordsOfAll | ibolimport.c:437-483 | of the records written, the readable ones are read back, in order |
| IbolHistory.RecordsConcat | iboldb.c:199-245 | records behind whole lines are read after theirs |
| IbolRuns.AppendKeeps | ibolimport.c:710-818 | a cache with any beginning of an update appended still has one record per MSGID and has lost none |
| IbolRuns.EveryHistorySafe | ibolimport.c:630-871 | after every history of growth, updates, rebuilds and crashes at any byte: no MSGID in two valid records, no unparsable file at or below the checkpoint, and, without first appearances before 1970 below the first unparsable file, every entry up to the checkpoint in the cache |
| IbolIncremental.RebuildCoversIff | ibolimport.c:820-854 | after a rebuild every MSGID is in the cache if and only if none first appears with a time before 1970 |
| IbolIncremental.AlwaysCoveredIff | ibolimport.c:630-871 | every history that ends in a given spool leaves its entries up to the checkpoint in the cache if and only if no MSGID first appears, below the first unparsable file, with a time before 1970 |
| IbolIncremental.OneUpdateIff | ibolimport.c:663-818 | one update after a rebuild equals one rebuild of everything if and only if the new files repeat no MSGID written with a time before 1970 |
| IbolIncremental.UpdatesEqualRebuild | ibolimport.c:630-871 | whatever the batches, cache bytes and checkpoint after each update are those of a rebuild |
| IbolIncremental.IncrementalEqualsRebuildIff | ibolimport.c:630-871 | incremental equals rebuild for all ways to split a spool if and only if no MSGID that first appears before 1970 returns under a higher number |
| IbolWrap.AppendOutput | ibol.c:855-875 | the buffer takes the piece, or what fits and an error |
| IbolWrap.AppendWrapped | ibol.c:877-932 | the rows of all lines, cut at the buffer size; success exactly when all fit |
| IbolWrap.RowsRejoin | ibol.c:888-925 | rows are at most `width` long and joined again give the line, with at most one space lost at a break; a break without a space is behind `width` characters, and no row has room for one word more |
| FirstText.FindFirst | conf.c:1790-1848 | the loop, with its four probes, ends at the number the search function gives |
| FirstText.SearchEndsOnCluster | conf.c:1802-1846 | whatever is missing, the search ends on number 1, or on a text (or the last number) with four missing numbers below it |
| FirstText.ShortGapsFound | conf.c:1790-1848 | with gaps of at most three numbers from the lowest text on, the lowest text is found |
| FirstText.GapLimit | conf.c:1809-1842 | the limit is exact: right on all conferences with gaps of at most g numbers if and only if g is at most 3 |
| ConfsFile.Stringify | conf.c:289-307 | the printed line of an entry |
| ConfsFile.GetIntervals | buf.c:570-602 | the interval list of a line, or a line the parser would leave the buffer on |
| ConfsFile.GetConfsEntry | buf.c:543-608 | the next entry and the buffer behind its line |
| ConfsFile.ReadOfPrinted | buf.c:543-608 | a printed line is taken off the buffer with its number; the entry is the one printed if and only if no interval starts below 0 |
| ConfsFile.BehindOtherLine | buf.c:543-608 | a line without a colon in front of an entry is passed over; behind an empty line at the start of the buffer the entry is read and stays, so that it is read twice |
| ConfsFile.FileRoundTripIff | conf.c:289-307 | reading a whole file inverts printing it if and only if no interval starts below 0 |
| ConfsUpdate.SeekConf | conf.c:715-720 | the reading loop stops behind the first line of the conference, or finds none |
| ConfsUpdate.LineBefore | conf.c:726-738 | the backward loops find the start of that line |
| ConfsUpdate.ReplaceConfs | conf.c:700-751 | the first line of the conference is replaced and no other byte changes; without such a line the result is empty |
| ConfsUpdate.ReplaceFitsIff | conf.c:710-741 | the new file and the new line fit the buffers of the code if and only if the new line is less than 79 bytes longer than the old one and below 32768 |
| ConfsUpdate.ReplaceChangesOne | conf.c:700-751 | parsed again, the named entry is the new one and every other is as before |
| ConfsUpdate.NumUnread | conf.c:1291-1338 | last minus the lengths of the intervals, 0 for an unlisted conference |
| ConfsUpdate.UnreadIsCountIff | conf.c:1326-1334 | that is never above the number of uncovered texts, and for intervals that are not inverted it is that number if and only if they are disjoint and inside 1..last |
| QuoteWrap.Editor.AppendQuoteLine | edit.c:45-72 | the current line is filled, cut at 71 characters, and a new one started |
| QuoteWrap.Editor.AppendWrappedQuote | edit.c:78-149 | the lines of the paragraph are appended, the previous line shortened when a word is stolen back |
| QuoteWrap.Editor.QuoteText | edit.c:712-768 | paragraphs are collected from accepted lines and flushed at empty or refused lines and at the end |
| QuoteWrap.WrapWithinColumns | edit.c:78-149 | every line has at most 73 columns |
| QuoteWrap.AdvanceIs | edit.c:117-136 | a line takes all that fits 71 columns, else up to the last blank within them, else 71 characters of the word |
| QuoteWrap.StealsIff | edit.c:91-115 | a rest takes a word back exactly when it is one word and the last word of the line above, a space and it have at most 71 characters |
| QuoteWrap.LastWordNotAlone | edit.c:78-149 | a last line of one word is left only where the last word of the line above had no room next to it |
| QuoteWrap.WrapKeeps | edit.c:78-149 | no ink and no word is lost, and no word split unless a rest has no blank behind its first character for 71 columns |
| QuoteWrap.QuoteKeepsWordsIff | edit.c:78-149 | the word sequence is intact, stealing included, if and only if no word has more than 71 characters and the first is not of 71 behind one leading blank |
| QuoteWrap.QuoteKeepsInk | edit.c:712-768 | quoting a text keeps the ink of the accepted lines in order; all lines fit |
| QuoteWrap.ParagraphQuoted | edit.c:712-768 | accepted lines with no empty one among them are wrapped as one text, a space between them; a refused line ends it, and an accepted empty one leaves an empty line too |
| Utf8.WriteFixedField | ftntoss.c:321-351 | the field is the cut text and NULs, the rest of the header untouched |
| Utf8.Utf8SafeEnd | ibol.c:246-283 | cuts an incomplete last character |
| Utf8.SafeEndIff | ibol.c:246-283 | whatever the bytes in front, the last lead byte stays with its tail bytes when they are as many as it asks for, or more, and goes with them otherwise |
| Utf8.CharIsScalar | ibol.c:246-283 | what counts as a character is the encoding of a Unicode scalar value (section 3 of RFC 3629) |
| Utf8.EncodedIsChar | ibol.c:246-283 | and every such encoding is one |
| Utf8.WholeIsLongest | ftntoss.c:339-347 | no valid prefix within the limit is longer than the one kept |
| Utf8.SameCut | ibol.c:246-283 | on valid UTF-8 both cuts keep the longest run of whole characters that fits |
| FtnMsg.CopyField | ftnmsg.c:17-37 | the text of a header field without white space at its end |
| FtnMsg.StripPipeColors | ftnmsg.c:46-64 | the two cursors leave the C string without its `NN`-style codes |
| FtnMsg.CodesStripped | ftnmsg.c:46-64 | two digits behind a bar are taken out with it, as often as they occur |
| FtnMsg.BarStays | ftnmsg.c:46-64 | a bar with anything else behind it stays |
| FtnMsg.ProcessBody | ftnmsg.c:149-241 | kludges, raw and clean text of the lines of the body |
| FtnMsg.ReadFidoMsg | ftnmsg.c:292-325 | the message of a file, none for a file shorter than a header |
| FtnMsgOut.WriteHeader | ftntoss.c:988-1020 | 190 bytes: four fields and thirteen little-endian numbers |
| FtnMsgOut.HeaderSays | ftntoss.c:988-1020 | the number at each offset of the header is the named part of the named address |
| FtnMsgOut.WriteFidoMsgOut | ftntoss.c:969-1081 | the bytes of the file; an error for a message without MSGID |
| FtnMsgRound.FieldRoundTripIff | ftnmsg.c:17-37 | a field comes back as written if and only if it fits with a NUL and does not end in white space; on UTF-8 as its longest run of whole characters, trimmed |
| FtnMsgRound.BodyRoundTripIff | ftnmsg.c:149-241 | the body comes back unchanged if and only if it has no carriage return, no line over 4095 bytes, no control-line prefix and no colour code |
| FtnMsgRound.KludgesRead | ftnmsg.c:66-92 | what the reader finds in the kludges of a written message: its own, and what control lines of its body put in their place |
| FtnMsgRound.MsgidDelivered | ftnmsg.c:66-92 | the MSGID the reader delivers: that of the last control line of the body that sets one, else the own one, within 254 bytes |
| FtnMsgRound.MessageRoundTripIff | ftnmsg.c:292-325 | From, To, Subject, MSGID, REPLY and body of a written message, whatever lines its body has, come back each exactly under its condition |
| FtnMsgRound.BrokenIdsLost | ftnmsg.c:66-92 | an identifier with a line end in it never comes back |
| MailWords.Base64Decode | mailparse.c:216-269 | the loop over quanta, padding and skipped characters |
| MailWords.Base64RoundTrip | mailparse.c:216-269 | decoding inverts Base64 (section 6.8 of RFC 2045) for all bytes |
| MailWords.OthersIgnored | mailparse.c:216-269 | characters outside the alphabet are ignored wherever they stand |
| MailWords.QDecodeWord | mailparse.c:488-520 | the loop over Q text |
| MailWords.QRoundTrip | mailparse.c:488-520 | decoding inverts the Q encoding (section 4.2 of RFC 2047) for all bytes, however each is written |
| MailWords.EqualsStays | mailparse.c:488-520 | an equals sign without two hexadecimal digits behind it stays |
| MailHeader.Latin1ToUtf8 | mailparse.c:461-486 | each byte as its UTF-8 form |
| MailHeader.Latin1IsUtf8 | mailparse.c:461-486 | the result is valid UTF-8 |
| MailHeader.Latin1Codes | mailparse.c:461-486 | one character a byte, and the character of that number |
| MailHeader.Latin1Iff | mailparse.c:522-546 | which character set names are converted, in capitals or not; words in any other are kept |
| MailHeader.DecodeEncodedWord | mailparse.c:547-616 | the encoded-word at the start of a text and its length, or none |
| MailHeader.Rfc2047Decode | mailparse.c:618-684 | the loop with its last-was-encoded state |
| MailHeader.WordRead | mailparse.c:547-616 | every B or Q word, in whatever character set, is decoded to its text and consumed whole |
| MailHeader.WordIff | mailparse.c:547-616 | a word is taken exactly where there is one: a character set, one of the letters B, b, Q and q, and a text up to the first "?=" |
| MailHeader.DecodedIsMeaning | mailparse.c:618-684 | every header of plain text and encoded-words decodes to its meaning: white space between words dropped, all other text kept |
| MailHeader.WordsJoined | mailparse.c:618-684 | words separated by any white space, or none, give their texts joined (section 6.2 of RFC 2047) |
| MailHeader.PlainUnchanged | mailparse.c:618-684 | text without "=?" comes back unchanged |
| MailHeader.NoWordUnchanged | mailparse.c:618-684 | so does any text in which no word begins, broken words and all |
| FtnAddress.AddressRoundTripIff | ftnconfig.c:140-209 | parsing a formatted address gives it back if every component is in 0..65535, and fails otherwise |
| FtnConfig.TokenizeLine | ftnconfig.c:45-96 | the tokens of a line; an error for a 65th token or an open quote |
| FtnConfig.TokensOfQuoted | ftnconfig.c:45-96 | up to 64 quoted tokens are read back whatever blanks and semicolons they hold |
| FtnConfigText.TokensOfWords | ftnconfig.c:45-96 | a line of quoted and bare words, however spaced, with a comment or none, gives its words back; a 65th is refused |
| FtnConfigText.LastBare | ftnconfig.c:45-96 | a bare word at the end of a line, or with a comment right behind it, is taken up to there |
| FtnConfig.DoLine | ftnconfig.c:384-505 | one line of the loader |
| FtnConfigText.KindIff | ftnconfig.c:384-505 | which keyword, in capitals or not, makes which line |
| FtnConfigText.AreaLineIff | ftnconfig.c:421-476 | an area line is accepted if and only if it has a tag of at most 127 bytes, an address and, if any, a base name of at most 31 bytes and a path of at most 4095; each goes to its own field |
| FtnConfigText.AkaLineIff | ftnconfig.c:388-429 | an AKA line is accepted if and only if it has an address, a domain line if and only if it has a name of at most 63 bytes |
| FtnConfigText.LongLineRefused | ftnconfig.c:359-384 | a line of 4095 bytes or more ends the load |
| FtnConfig.ResolveAreaDomains | ftnconfig.c:295-333 | every area gets the domain of the first AKA with its address, or the load fails |
| FtnConfig.Config.LoadCrashmail | ftnconfig.c:335-532 | the configuration is replaced by the loaded one, or unchanged on failure |
| FtnConfigMeaning.StepsMean | ftnconfig.c:359-505 | the line machine accepts exactly the files whose lines are valid under the last AKA or area line above, and builds the AKAs and areas of their blocks |
| FtnConfigMeaning.LoadedIff | ftnconfig.c:335-532 | a file is loaded if and only if its lines are valid and every area has an AKA with a domain; the result is read off its blocks, links in file order |
| FtnConfigText.ConfigReads | ftnconfig.c:335-532 | every configuration, written in any of these ways, is loaded as it is |
| FtnConfigMeaning.LinksOnlyUnderEchomail | ftnconfig.c:488-505 | only echomail areas have links |

## Left out

- FtnThreads.ThreadsSymmetric: only subjects of one line; StoredTextReadsIff shows that exactly these read back.
- FtnLock.InterleavingsSafe: processes of other programs and `--export-test`, which do not take the lock, are not part of the state machine; a lock file is removed by hand only when no process is active. CONF_FILE is a map of last text numbers there; its lines are in ConfFile.
- FtnLock.NextMsgNumber: the overflow of the path buffer and of `long` is not modelled.
- FtnImport.DryRunHangsSame: safe mode only; in unsafe mode the importer puts a deferred reply at the top in its first pass, while the planner waits for its parent.
- FtnImport.ImportAll: the printed totals, and the early exit when a text cannot be stored, because writes succeed in the model; every spool file parses.
- FtnImport.ReimportIdleIff: asks that no wrongly read MSGID is a MSGID or REPLY of the spool; without that, RescanIdleIff is the exact statement.
- FtnImport.ScanOfRun: the texts stored before are files of whole lines, as every text this code writes is.
- FtnDelivery.EchoDueIff: an AKA whose components are in 0..65535, and signing lines that are no control lines.
- IbolRuns.EveryHistorySafe: the spool only gains files with higher numbers and no file changes.
- IbolTail.ReadRecent: files without NUL bytes.
- ConfsUpdate.ReplaceConfs: a file with at least one entry, because the code reads an unset entry otherwise; the result is that of buffers without a limit, and ReplaceFitsIff says when those of the code suffice.
- ConfsFile.Stringify: lines below the 32768 bytes of the buffer of the code.
- ConfsUpdate.NumUnread: the same, with intervals that parse as printed.
- ConfsFile.GetConfsEntry: a line on which the code would leave its buffer is a result of its own, Broken.
- TextReader.GetTextEntry: only texts on which the reader stays inside its buffer; the further header numbers of a survey.
- FtnMsgOut.WriteFidoMsgOut: the origin line is a parameter, so that it names the address in the header is not stated.
- FtnConfig.Config.LoadCrashmail: error messages, and lines with NUL bytes.
- QuoteWrap.Editor.QuoteText: the prompt; the answers are a parameter.
- Replacing and parsing CONF_FILE in conf.c and buf.c (replace_conf, get_conf_entry): the same scheme as ConfFile and ConfsUpdate.
- Unfolding of mail headers and MIME parts, quoted-printable bodies.
- Sanitising of oneliner fields and the parser of oneliner bodies; a spool file is a finished record, an ignored file or an unparsable one.
- Netmail import and export, QWK packing, news, footnotes and all terminal code.
- File modes and ownership, notification by mail or signal, time zones.
