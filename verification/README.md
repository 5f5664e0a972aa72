# Verified models of XEmacs support programs

Dafny models of eight components of the `lib-src` and `lwlib` directories, with
proofs about them. Each component is modelled in the source's own form: loops over
arrays and buffers, objects whose fields change, links between nodes. Next to
it stands a specification on plain values, every method is proved to do what the
specification says, and the main theorems are about the specification. Texts and
reports are also pinned from outside: by reading them back, or against the
characters, octets and numbers themselves.

`dafny verify dfyconfig.toml` checks everything.

| file | models |
|---|---|
| `Getopt.dfy`, `GetoptMeaning.dfy`, `GetoptPrefix.dfy` | the resumable option scanner of `lib-src/getopt.c`: short and long options, abbreviation, the three orderings, and the in-place permutation of `argv` |
| `Movemail.dfy` | the dot-locking protocol of `lib-src/movemail.c` as interleaved system calls of any number of movers and delivery agents, with a clock and with processes that stop anywhere |
| `Qsort.dfy` | the non-recursive quicksort of `lib-src/qsort.c` with its explicit stack and its unguarded insertion sort |
| `Base64.dfy`, `QuotedPrintable.dfy` | the encoders and decoders of `lib-src/mmencode.c` (sections 6.7 and 6.8 of RFC 2045) |
| `Pop.dfy` | the receive side of `lib-src/pop.c`: the growing buffer, CRLF lines from reads of any size, dot-unstuffing and message assembly (section 3 of RFC 1939) |
| `Filenames.dfy` | canonical and relative file names of `lib-src/ootags.c`, worked out inside a character buffer |
| `Tags.dfy`, `TagsFormat.dfy` | the tag table of `lib-src/ootags.c`, its printed form and the size computed ahead of printing |
| `Widgets.dfy` | the merge of widget value trees in `lwlib/lwlib.c` and what its change flags promise |
| `Hexl.dfy`, `HexlLayout.dfy` | the dump and undump loops of `lib-src/hexl.c` |
| `Stdio.dfy`, `TextLines.dfy`, `Wrappers.dfy` | shared pieces: files in memory, lines of a text, stock datatypes |

## Properties the code does not have everywhere

Some properties that the code is meant to have fail on some inputs. The code is
modelled as it is, and the exact condition is proved.

- **Permuting scan.** A scan that permutes reports the same options as a scan in
  order of the partition it leaves, except when the last argument is an
  option that lacks its argument and a non-option has been skipped: in the
  partition that non-option follows the option and is taken as its argument
  (`GetoptSpec.PermuteIsInOrderOnPartition`; for example the option string `a:`
  with the arguments `x -a`, `GetoptSpec.PermuteFeedsNonOption`).
- **Option string prefix.** Only the first call skips a leading `+` or `-` of the
  option string (`lib-src/getopt.c:390-401`); all later calls search the string
  with the prefix. There the prefix character is an option, or takes the place of
  one, a leading `:` no longer selects the code for a missing argument, and with
  `long_only` an element can stop being tried as a long option.
  `GetoptPrefix.StepMisread` gives the exact condition for one call, and
  `GetoptPrefix.PrefixMisread` for a whole scan.
- **Stale locks.** Releasing every lock within 300 seconds of its link is not
  enough, because looking at the lock file, reading the clock and removing the
  file are separate steps. Let the lock file of a process that can still run
  reach a certain age, and let a certain time pass from the look at a lock file to
  the clock. Locking is exclusive in all runs, and no mail is ever lost, exactly
  if these two bounds add up to no more than 300 seconds and, where the lock
  files of stopped processes may grow old, no two processes wait at a time
  (`Movemail.ExclusiveIffSafe`): two waiters that have both decided to break the
  lock of a stopped process break each other's.
- **Relative file names.** A relative name leads back to the file it was made
  from, except when the file name goes on with an empty component right behind
  `dir`, so that the relative name starts with a slash
  (`FilenameSpec.RelativeInverts`; for example `//b` in `/`,
  `FilenameSpec.RelativeLooksAbsolute`).
- **Message size.** The memory taken for the true size of a message holds its text,
  with quotes, and a NUL at every moment, except for a message without any line that
  is fetched without quoting: there the NUL has no room (`Pop.MessageArrives`,
  `Pop.SizeIsEnough`).
- **Long dumps.** A dump of more than 2^32 bytes has addresses of nine digits,
  which `-de` does not expect: it drops those lines (`HexlSpec.UndumpInvertsDump`).

One function turns out to have a precondition that its callers always meet:
`total_size_of_entries` is exact exactly if no line or character number is negative
(`TagsSpec.SizeAheadIsExact`), and the scanners only count these numbers up from 0, integer overflow aside
(`lib-src/ootags.c:2575-2578`, `lib-src/ootags.c:3447-3451`).

## Model

| member | source | states |
|---|---|---|
| `GetoptSpec.PermuteIsInOrderOnPartition` | lib-src/getopt.c:443-459 | the permuting scan and the in-order scan of the partition it leaves report the same events, and leave the same partition, exactly if it is not the case that an option lacks its argument at the end after a non-option has been skipped |
| `GetoptSpec.PermuteFeedsNonOption` | lib-src/getopt.c:912-940 | an option string and arguments for which they differ, with both scans' events |
| `GetoptSpec.RestIsSkipped` | lib-src/getopt.c:546-551 | a scan that meets no `--`, and so runs to the end of the arguments, leaves something exactly if it has skipped a non-option |
| `GetoptSpec.OptionsReplay` | lib-src/getopt.c:525-600 | options and their arguments, put in front of any tail that starts with a non-option (or follows `--`), are scanned in order with the same events, unless the last one would take the tail's head |
| `GetoptSpec.HungryTakesTail` | lib-src/getopt.c:912-940 | an option without its argument at the end of the options takes the head of the tail instead |
| `GetoptSpec.NextMattersOnlyIfTaken` | lib-src/getopt.c:749-945 | what follows an element has no influence on its decoding unless one of its options takes it as an argument |
| `GetoptSpec.TakenIsReported` | lib-src/getopt.c:937-940 | the element an option takes is what its event reports as argument |
| `GetoptSpec.RestStartsWithNonOption` | lib-src/getopt.c:456-459 | unless `--` ends the scan, what the permuting scan leaves behind the options starts with a non-option |
| `GetoptSpec.ScanKeepsArguments` | lib-src/getopt.c:525-600 | in each ordering the two piles together hold exactly the arguments scanned |
| `Getopt.Scanner.Getopt` | lib-src/getopt.c:500-946 | a call returns -1 exactly if the scan has no event left, with `argv` partitioned and `optind` at the first non-option; any other call reports the scan's first event through its results and leaves the rest of the scan unchanged |
| `Getopt.ScanAll` | lib-src/getopt.c:443-459 | for the first scan of a program, or after setting `optind` to 0, calling until -1 ends, returns all events of the specified scan in order, and leaves `argv` as options then rest, `argv[0]` in place, and `optind` behind the options |
| `Getopt.Scanner.Advance` | lib-src/getopt.c:525-600 | moving on to the next element neither loses nor adds events, in each ordering; it finishes only when no event is left |
| `Getopt.Scanner.PermuteAndSkip` | lib-src/getopt.c:536-552 | exchanging blocks and skipping non-options does not change the scan, and stops at an option or at the end |
| `Getopt.Scanner.FinishAtDashes` | lib-src/getopt.c:554-570 | `--` ends the scan with `argv` partitioned, `--` among the options |
| `Getopt.Scanner.Exchange` | lib-src/getopt.c:293-370 | the two blocks change places, and the indices describe the moved block of non-options |
| `Getopt.ExchangeBlocks` | lib-src/getopt.c:328-364 | the rotation by swapping shorter blocks turns the blocks A B into B A, keeps the order inside both and touches nothing else |
| `Getopt.ShortBottom` | lib-src/getopt.c:330-346 | after swapping a short bottom block with the far end of the top one, exchanging what remains completes the exchange |
| `Getopt.ShortTop` | lib-src/getopt.c:347-363 | the same for a short top block |
| `Getopt.ExchangeKeepsView` | lib-src/getopt.c:538-544 | exchanging the blocks leaves events and piles of the scan in progress as they were |
| `Getopt.SkipKeepsView` | lib-src/getopt.c:546-551 | so does skipping non-options |
| `Getopt.ViewStep` | lib-src/getopt.c:602-945 | decoding one option takes exactly its event off the scan in progress |
| `Getopt.ViewAtDashes` | lib-src/getopt.c:554-570 | a scan at `--` has no more events; its piles are the blocks scanned so far and all that follows |
| `Getopt.Scanner.Initialize` | lib-src/getopt.c:377-441 | the first call chooses the ordering from the prefix and the environment and skips the prefix |
| `Getopt.Scanner.DecodeShort` | lib-src/getopt.c:749-945 | one short option: unknown, plain, with optional or with required argument, with the return code, `optarg`, `optopt` and `optind` of the specification |
| `Getopt.Scanner.DecodeLong` | lib-src/getopt.c:617-747 | one long option, exact or abbreviated, with all its errors, or the decision to read the element as short options |
| `Getopt.FindLong` | lib-src/getopt.c:625-655 | the loop finds the first exact match, else the only abbreviation, else ambiguity or nothing |
| `GetoptMeaning.KindsAreDeclared` | lib-src/getopt.c:898-943 | in an option string made of characters with no, one or two colons the scanner finds for each character the kind of its first declaration |
| `GetoptMeaning.FlagsRead` | lib-src/getopt.c:751-773 | an element of short options without arguments reports each of them in order, and '?' for each character that is no option |
| `GetoptMeaning.AttachedReads` | lib-src/getopt.c:898-921 | an option with an argument behind other short options takes the rest of the element |
| `GetoptMeaning.SeparateReads` | lib-src/getopt.c:937-940 | a required argument that is not in the element is the next element |
| `GetoptMeaning.OptionalReads` | lib-src/getopt.c:900-911 | an optional argument never is |
| `GetoptMeaning.LackingReads` | lib-src/getopt.c:922-936 | a required argument that is missing at the end is reported as ':' if the option string starts with one and as '?' otherwise |
| `GetoptMeaning.LookupMeans` | lib-src/getopt.c:625-666 | the first exact match is found; without one, the only option abbreviated; two different ones are ambiguous |
| `GetoptMeaning.LongReads` | lib-src/getopt.c:668-722 | "--name" and "--name=value" report the option's value, or 0 if it has a flag, with its index and the argument its kind calls for, and all the errors with their codes |
| `GetoptMeaning.UnknownLongReads` | lib-src/getopt.c:657-666 | an ambiguous or unknown name is reported as '?' with 0 |
| `GetoptMeaning.LongOnlyReads` | lib-src/getopt.c:617-747 | with `long_only` one dash reads like two, except for a single short option and for names not found |
| `GetoptMeaning.OrderingsAre` | lib-src/getopt.c:392-405 | which prefix or environment asks for which ordering |
| `GetoptMeaning.NonOptionsRead` | lib-src/getopt.c:584-593 | a non-option ends the scan, is passed by, or is reported with code 1, by ordering |
| `GetoptMeaning.DashesEnd` | lib-src/getopt.c:554-570 | "--" ends the options, and what follows it is left |
| `GetoptPrefix.PrefixMisread` | lib-src/getopt.c:390-401 | a whole scan with a prefixed option string gives what it would give if every call skipped the prefix, exactly if no call after the first meets an option it reads differently; for all option strings, long options and orderings |
| `GetoptPrefix.StepMisread` | lib-src/getopt.c:602-945 | the exact condition under which a call that sees the prefix decodes an option, short or long, like one that does not; if not, the reported events differ already |
| `GetoptPrefix.ShortMisread` | lib-src/getopt.c:749-945 | the same for short options alone |
| `GetoptPrefix.PlusBecomesOption` | lib-src/getopt.c:390-401 | a scan in which the second call takes the prefix for an option |
| `GetoptPrefix.PrefixKeepsKind` | lib-src/getopt.c:752-759 | with the prefix in the option string the prefix character has the kind of argument that the two characters behind it say, and every other option keeps its kind |
| `Movemail.ExclusiveIffSafe` | lib-src/movemail.c:594-626 | mutual exclusion in all runs, and likewise the safety of the mail in all runs, holds if and only if the age bound of locks in use and the window between stat and clock add up to at most 300 and, where locks of stopped processes may grow old, at most one process waits at a time |
| `Movemail.SafeRuns` | lib-src/movemail.c:397-491 | under these conditions no run of any number of processes, stopping anywhere, breaks mutual exclusion or loses a byte |
| `Movemail.BreaksStoppedLock` | lib-src/movemail.c:614-623 | under all rules that let the lock of a stopped process grow old there is a run in which a waiter breaks that lock and takes it |
| `Movemail.MoverSavesMail` | lib-src/movemail.c:397-491 | a mover that finds the lock free and whose calls succeed ends with its output file closed and holding exactly the inbox, whatever that was; the inbox is then empty and the lock file gone |
| `Movemail.CopySaves` | lib-src/movemail.c:430-491 | the same from any point of the copy loop |
| `Movemail.GivesUpOnlyOnFailure` | lib-src/movemail.c:436-455 | a mover gives up exactly after a short write or a failed sync or close |
| `Movemail.GivesUpCleanly` | lib-src/movemail.c:436-455 | it then deletes its output and unlocks, and leaves the inbox alone |
| `Movemail.BreaksOnlyOldLocks` | lib-src/movemail.c:614-623 | a waiter removes the lock file it looks at exactly if that was last changed more than 300 seconds before, and tries again otherwise |
| `Movemail.OtherCalls` | lib-src/movemail.c:397-399 | without an output file nothing is done; dropping the temporary name dates the lock file; delivered bytes go to the end of the inbox |
| `Movemail.InvAlways` | lib-src/movemail.c:397-491 | the protocol invariant holds after every run |
| `Movemail.InvStep` | lib-src/movemail.c:397-491 | every step of every process, the clock and stopping included, keeps the invariant |
| `Movemail.CallKeepsMine` | lib-src/movemail.c:594-640 | a system call keeps its caller's own part of the invariant, whatever its outcome |
| `Movemail.CallKeepsOthers` | lib-src/movemail.c:594-640 | a system call keeps every other process's part of the invariant, the removal of a stopped process's lock included |
| `Movemail.CallMovesBytes` | lib-src/movemail.c:430-478 | a call either adds delivered bytes to the inbox or empties it after the caller's closed output file holds exactly its contents |
| `Movemail.CallKeepsArchive` | lib-src/movemail.c:430-478 | after every call the bytes delivered are the saved ones in order followed by the inbox |
| `Movemail.StatAcrossRelease` | lib-src/movemail.c:614-623 | past the bounds there is a run in which a process is about to remove a lock file that its owner has just released |
| `Movemail.TwoWaiters` | lib-src/movemail.c:614-623 | whatever the bounds, two waiters can both decide to remove the lock file of a stopped process, and one be about to remove the file after the other has done so |
| `Movemail.BreaksLiveLock` | lib-src/movemail.c:614-623 | in either case the lock of a live mover is removed, so that a delivery agent enters beside it |
| `Movemail.LosesAByte` | lib-src/movemail.c:430-478 | and then a delivered byte is truncated away unsaved |
| `Qsort.Qsort` | lib-src/qsort.c:81-236 | for every total preorder the array ends sorted and with the same elements; the stack of the first phase, if there is one, is left empty with its high-water mark within log2 of the length |
| `Qsort.QuickPhase` | lib-src/qsort.c:93-182 | the elements are the same, a least one is among the first MAX_THRESH + 1, and the stack object is left empty, its high-water mark within log2 of the length |
| `Qsort.PartStack.Push` | lib-src/qsort.c:42-43 | the slot above is filled and no other one, and the high-water mark keeps up with the number of partitions above the dummy |
| `Qsort.MedianOfThree` | lib-src/qsort.c:107-125 | both ends of the partition are on the right side of the pivot |
| `Qsort.Partition` | lib-src/qsort.c:126-153 | both parts are non-empty and smaller, nothing outside them moves, and the pivot separates them |
| `Qsort.CollapseWalls` | lib-src/qsort.c:134-138 | the scans without bound checks stay inside the partition and stop at elements that may be swapped |
| `Qsort.NextPart` | lib-src/qsort.c:157-180 | the stack and the current bounds hold exactly the pending partitions, and a push raises the high-water mark only within log2 of the length |
| `Qsort.RoomToPush` | lib-src/qsort.c:42-45 | when both parts are worth sorting the stack has a free slot above the dummy |
| `Qsort.HalvingStaysWithinLog` | lib-src/qsort.c:76-79 | keeping the smaller part keeps the log bound for it and for the one pushed |
| `Qsort.LogBoundFitsStack` | lib-src/qsort.c:97-98 | the log bound on a 32-bit count fits STACK_SIZE |
| `Qsort.PartitionStep` | lib-src/qsort.c:100-181 | a partition step keeps the phase's invariant, makes the pending work smaller and keeps the elements |
| `Qsort.DivideKeepsStackOk` | lib-src/qsort.c:162-180 | replacing a partition by those of its parts that are large enough keeps all partitions disjoint, in range and within the log bound |
| `Qsort.DivideKeepsSplit` | lib-src/qsort.c:184-200 | the border below which the minimum lies moves down with the leftmost partition |
| `Qsort.SplitGivesMin` | lib-src/qsort.c:198-200 | once that border is within the threshold a least element is up front |
| `Qsort.PlaceSentinel` | lib-src/qsort.c:202-207 | a least element of the whole array is put first |
| `Qsort.InsertionPoint` | lib-src/qsort.c:215-218 | the scan without bound check stops inside the array, at the place where the element belongs |
| `Qsort.Insert` | lib-src/qsort.c:212-233 | one more element is sorted, the sentinel stays and no element is lost |
| `Qsort.Rotate` | lib-src/qsort.c:222-230 | the shifting loops move one element down past the others in order |
| `Qsort.InsertionPhase` | lib-src/qsort.c:192-234 | a nearly sorted array with a least element up front becomes sorted |
| `Qsort.MoveDownSorts` | lib-src/qsort.c:212-233 | inserting behind the last element not above it extends the sorted part |
| `Base64.RoundTrip` | lib-src/mmencode.c:77-243 | decoding what was encoded gives the original bytes, for all inputs, with and without portable newlines |
| `Base64.DecodeInvertsEncode` | lib-src/mmencode.c:104-119 | the chunks of an encoding decode to its bytes, with one or two pads where the length asks for them |
| `Base64.NarrowInvertsWiden` | lib-src/mmencode.c:139-166 | turning CRLF back into newlines undoes the widening of newlines, lone and repeated CRs kept, for every text and both states of the pending CR |
| `Base64.LineBreaksDrop` | lib-src/mmencode.c:94-100 | the line breaks of an encoding disappear in decoding |
| `Base64.BasisIsLetter` | lib-src/mmencode.c:104-119 | the alphabet is that of table 1 of RFC 2045, letter by letter |
| `Base64.ChunkSpells` | lib-src/mmencode.c:104-119 | four characters spell the 24 bits of a group in the alphabet, with '=' where a short group has no bits |
| `Base64.EncodeAt` | lib-src/mmencode.c:82-93 | each four characters of an encoding are those of three bytes of the input, in place |
| `Base64.EncodingEnds` | lib-src/mmencode.c:84-92 | an encoding ends with "==", "=" or no pad by the length of its input, and has no other '=' |
| `Base64.WidenNewlines` | lib-src/mmencode.c:63-73 | portable newlines make 13, 10 of each 10 and change nothing else |
| `Base64.LettersDecode` | lib-src/mmencode.c:222-240 | four letters, three and "=", or two and "==" give the three, two or one bytes of their bits |
| `Base64.PadEndsData` | lib-src/mmencode.c:222-225 | an '=' among the first two characters ends the data |
| `Base64.OnlyLettersCount` | lib-src/mmencode.c:226-237 | char64 gives -1 exactly for characters outside the alphabet |
| `Base64.JunkDecodes` | lib-src/mmencode.c:226-238 | such a character counts as six bits that are one, and makes the byte 255 if it is the last of it |
| `Base64.SpaceIgnored` | lib-src/mmencode.c:185-217 | white space of any kind, anywhere, makes no difference to decoding |
| `Base64.PrematureEnd` | lib-src/mmencode.c:209-221 | input that ends inside a group gives nothing for it, not even a pending CR |
| `Base64.To64LinesOk` | lib-src/mmencode.c:94-100 | every line of an encoding has 72 characters, the last one possibly fewer but some, and the text ends with a newline; these lines joined are the text |
| `Base64.Encoder.NextCharIn` | lib-src/mmencode.c:55-75 | successive calls read the input with each newline widened to CR LF when newlines are portable |
| `Base64.Encoder.To64` | lib-src/mmencode.c:77-102 | the loop writes the encoding of the whole input, in lines |
| `Base64.Output64Chunk` | lib-src/mmencode.c:104-119 | the four characters of one, two or three bytes |
| `Base64.Decoder.AlmostPutc` | lib-src/mmencode.c:145-166 | one step of the automaton that narrows CRLF |
| `Base64.Decoder.DecodeGroup` | lib-src/mmencode.c:222-240 | one group of four characters, with its pads |
| `Base64.Decoder.From64` | lib-src/mmencode.c:175-243 | the loop writes what the text stands for, text after the data ignored, a pending CR not lost |
| `QuotedPrintable.RoundTrip` | lib-src/mmencode.c:275-347 | decoding what was encoded gives the original bytes, for all inputs and from every state of the line counter and the previous character |
| `QuotedPrintable.UnitDecodes` | lib-src/mmencode.c:279-335 | the text written for each unit of input decodes to that input in front of whatever follows |
| `QuotedPrintable.BinaryIsEscaped` | lib-src/mmencode.c:279-289 | control characters, '=', everything from 127 on and a dot at the start of a line become '=' and two capital hexadecimal digits |
| `QuotedPrintable.TextIsKept` | lib-src/mmencode.c:330-341 | other characters stay as they are, with a soft break behind column 72 |
| `QuotedPrintable.PlainLineIsKept` | lib-src/mmencode.c:278-347 | a whole line of printable characters that needs no care is its own encoding |
| `QuotedPrintable.NewlineIsKept` | lib-src/mmencode.c:290-297 | a newline ends the line, behind a soft break if a blank would end it |
| `QuotedPrintable.FromIsEscaped` | lib-src/mmencode.c:299-311 | "From " at the start of a line becomes "=46rom " |
| `QuotedPrintable.EndIsMarked` | lib-src/mmencode.c:343-346 | a last line without newline ends with a soft break |
| `QuotedPrintable.HexadecimalDecodes` | lib-src/mmencode.c:400-412 | '=' and two digits, in capital or small letters, give the byte they spell |
| `QuotedPrintable.SoftBreakVanishes` | lib-src/mmencode.c:400-405 | '=' at the end of a line gives nothing |
| `QuotedPrintable.TextDecodesToItself` | lib-src/mmencode.c:413-421 | everything but '=' gives itself |
| `QuotedPrintable.BadDigitsDecode` | lib-src/mmencode.c:408-410 | which characters are digits, and what an escape with others gives |
| `QuotedPrintable.ToQpLinesOk` | lib-src/mmencode.c:278-346 | no line is longer than 76, ends in space or tab, starts with a dot or, after the first, with "From "; these lines joined are the text |
| `QuotedPrintable.QpLinesOk` | lib-src/mmencode.c:278-346 | the same for the lines still to come from any point inside a line that meets the invariant on `ct` and `prevc` |
| `QuotedPrintable.UnitKeepsLine` | lib-src/mmencode.c:279-341 | each unit keeps the invariant that ties `ct` and `prevc` to the line written so far |
| `QuotedPrintable.ToQp` | lib-src/mmencode.c:274-347 | the loop writes the specified encoding of its input |
| `QuotedPrintable.LookAhead` | lib-src/mmencode.c:299-327 | the nested look-ahead finds how much of "From" is there and stops at the character behind it |
| `QuotedPrintable.WriteFrom` | lib-src/mmencode.c:299-329 | what is there is written, with the F escaped if it is "From ", and the character read too far is given back |
| `QuotedPrintable.FromQp` | lib-src/mmencode.c:349-428 | the loop writes what the text stands for, the delayed newline included |
| `PopSpec.ReadInvertsWire` | lib-src/pop.c:731-766 | reading a response undoes dot-stuffing and CRLF framing of any lines, whatever follows it on the stream |
| `PopSpec.CrlfLinesAreLines` | lib-src/pop.c:1231-1341 | the lines of a stream are what stands between its octets 13, 10, with what follows the last of them left over |
| `PopSpec.DotsAreUnstuffed` | lib-src/pop.c:747-765 | a line with a dot alone, or a dot and a NUL, ends a response; another leading dot is dropped, and nothing else is |
| `PopSpec.MessageGrows` | lib-src/pop.c:606-626 | each line adds itself and a newline to the message, behind '>' if it starts with "From " and quoting is asked for |
| `PopSpec.AssembledLength` | lib-src/pop.c:606-626 | the text of a message needs one byte a line less than its octets, plus the quotes |
| `PopSpec.TrueSizeIsEnough` | lib-src/pop.c:586-602 | without quoting the true size has room for text and NUL exactly if there is a line |
| `Pop.MessageArrives` | lib-src/pop.c:566-602 | a message held as lines arrives as these lines; the memory taken for its true size holds text and NUL exactly unless the message has no lines and is not quoted, and any larger size is always enough |
| `Pop.SizeIsEnough` | lib-src/pop.c:586-602 | for a size no less than the true one, nothing is written outside the memory exactly if the size is not 0, quotes are made room for, or the NUL is never reached |
| `Pop.AnswersAreTold` | lib-src/pop.c:702-718 | an answer that starts with the octets of "+OK" is followed by the response, one that starts with those of "-ERR" is not |
| `Pop.Retrieve` | lib-src/pop.c:560-631 | given only that text and NUL fit the memory, the result is the unstuffed lines joined by newlines with From lines quoted and a NUL behind; failure means a failed read or an incomplete or refused response |
| `Pop.Assemble` | lib-src/pop.c:598-627 | the loop assembles the lines and leaves the stream behind the response |
| `Pop.AddLine` | lib-src/pop.c:606-626 | a line is added inside the memory taken, with five more bytes at every fifth quote |
| `Pop.RoomToSpare` | lib-src/pop.c:606-626 | after each line the text leaves room for another character, given a size of at least the true octet count |
| `Pop.ReadLines` | lib-src/pop.c:1231-1341 | successive calls return exactly the CRLF-separated lines of the stream, however it is cut into reads |
| `Pop.Server.Getline` | lib-src/pop.c:1231-1341 | the next line of the stream, and the stream behind it; failure only if a read fails or no CRLF is left |
| `Pop.Server.ReceiveLine` | lib-src/pop.c:1282-1338 | one read: the line found, or more of the stream in the buffer and nothing missed by the next search |
| `Pop.Server.BufferedLine` | lib-src/pop.c:1238-1280 | a line that is complete in the buffer is returned without reading; otherwise the unread bytes move to the front |
| `Pop.Server.Grow` | lib-src/pop.c:1287-1297 | there is room for one more byte and the NUL, and the data stays |
| `Pop.Server.MultiNext` | lib-src/pop.c:731-766 | the next line of a response without its stuffed dot, or its end, which leaves multi-line mode |
| `Pop.Server.MultiFirst` | lib-src/pop.c:688-719 | multi-line mode is entered exactly on a positive first line, and never twice |
| `Pop.FindCrlf` | lib-src/pop.c:1556-1570 | the first CRLF among the given characters, the one behind them being NUL |
| `Pop.SearchedBefore` | lib-src/pop.c:1266-1273 | restarting the search one character before the new data finds the same CRLF as searching everything |
| `FilenameSpec.RelativeInverts` | lib-src/ootags.c:5222-5253 | the relative name taken relative to the directory is the canonical name again, exactly if the name does not continue with an empty component behind the directory |
| `FilenameSpec.RelativeLooksAbsolute` | lib-src/ootags.c:5222-5253 | a name and a directory for which it is not |
| `FilenameSpec.UpAndDown` | lib-src/ootags.c:5239-5249 | going up as often as the directory has slashes behind the common one, then down, gives the other name |
| `FilenameSpec.CanonicalShape` | lib-src/ootags.c:5274-5313 | a canonical name is not empty, keeps what comes before the first slash, stays absolute and has no "." or ".." behind a slash |
| `FilenameSpec.CanonicalIdempotent` | lib-src/ootags.c:5274-5313 | canonicalising twice is the same as once, for all names |
| `FilenameSpec.CanonicalNoLonger` | lib-src/ootags.c:5274-5313 | only the empty name becomes longer |
| `FilenameSpec.DotIsDeleted` | lib-src/ootags.c:5300-5304 | "/." can be deleted anywhere without changing the canonical name |
| `FilenameSpec.UpIsDeleted` | lib-src/ootags.c:5280-5299 | so can "/name/.." |
| `FilenameSpec.UpAtRootIsDeleted` | lib-src/ootags.c:5287-5288 | and "/.." behind the beginning |
| `FilenameSpec.NoDotsLeft` | lib-src/ootags.c:5310-5313 | a name without any of these is its own canonical name, the empty one excepted |
| `FilenameSpec.NamesAreTaken` | lib-src/ootags.c:5263-5272 | an absolute name is taken as it is, any other one in the directory |
| `FilenameSpec.ResolveDropsDots` | lib-src/ootags.c:5278-5305 | the stack machine never leaves a "." or ".." on its stack |
| `Filenames.AbsoluteFilename` | lib-src/ootags.c:5257-5314 | deleting inside the buffer computes the stack machine's result, for all files and directories |
| `Filenames.DoComponent` | lib-src/ootags.c:5276-5308 | one turn of the loop does one step of the stack machine and leaves the rest of the name to be done |
| `Filenames.DeleteUp` | lib-src/ootags.c:5283-5298 | deleting "/name/.." pops one component, and nothing at the root, and leaves the rest to be done |
| `Filenames.DeleteHere` | lib-src/ootags.c:5300-5304 | deleting "/." changes nothing else |
| `Filenames.PassOver` | lib-src/ootags.c:5307 | going on to the next slash finishes one component |
| `Filenames.RelativeFilename` | lib-src/ootags.c:5221-5253 | the loops cut at the last common slash and put one "../" for every directory slash behind it; the result inverts exactly under the condition above |
| `TagsSpec.CtagsLists` | lib-src/ootags.c:1595-1628 | after any additions in ctags mode the names are listed in strictly increasing order, each that was added, once, with the first entry that had it |
| `TagsSpec.InsertInOrder` | lib-src/ootags.c:1595-1628 | adding to a sorted tree keeps it sorted and adds exactly the entry, or nothing if the name is there |
| `TagsSpec.ChainInOrder` | lib-src/ootags.c:1587-1594 | in etags mode the listing is the order of addition |
| `TagsSpec.SizeAheadIsExact` | lib-src/ootags.c:1759-1788 | the size computed ahead is never too large, and exact exactly if no number is negative |
| `TagsSpec.NumberLenIsExact` | lib-src/ootags.c:1747-1757 | number_len is the number of characters printed exactly for non-negative numbers |
| `TagsFormat.EtagsReadsBack` | lib-src/ootags.c:1694-1699 | reading an etags line gives the pattern before DEL, the name before ^A if there is one, the line number before the comma and the character number behind it |
| `TagsFormat.CtagsReadsBack` | lib-src/ootags.c:1720-1739 | reading a ctags line gives name and file before tabs, then the unescaped pattern of a function or the line number of anything else |
| `TagsFormat.TableLines` | lib-src/ootags.c:1638-1745 | a table has one line for each entry, in order |
| `TagsFormat.NumberReads` | lib-src/ootags.c:1695-1699 | a printed number, negative or not, reads as that number |
| `TagsFormat.CompareIsLexicographic` | lib-src/ootags.c:1598-1627 | the order of names is that of a dictionary |
| `Tags.Table.AddNode` | lib-src/ootags.c:1573-1629 | linking a node into the table keeps the table's listing what the entries added so far call for |
| `Tags.AddSorted` | lib-src/ootags.c:1595-1628 | descending the links adds the node where the specification puts it, or drops it |
| `Tags.Table.LinkLast` | lib-src/ootags.c:1587-1594 | the list of nodes grows by the new one at its end |
| `Tags.Table.Print` | lib-src/ootags.c:1638-1745 | the table prints the text of its listing |
| `Tags.PutEntries` | lib-src/ootags.c:1638-1745 | printing left, node, right gives the lines in order |
| `Tags.PutEntry` | lib-src/ootags.c:1649-1741 | the line of one entry in either mode, with the pattern escaped |
| `Tags.NumberLength` | lib-src/ootags.c:1749-1757 | the division loop counts the digits |
| `Tags.TotalSizeOfEntries` | lib-src/ootags.c:1766-1788 | the loop to the right with recursion to the left adds up the sizes of all entries |
| `Tags.Table.SizeAhead` | lib-src/ootags.c:1759-1788 | for a whole etags table the result is the length of its text exactly if no number is negative |
| `WidgetsSpec.MergeGivesSecond` | lwlib/lwlib.c:543-691 | down to the level a merge gives the second tree; altogether exactly if the trees agreed on what lies deeper |
| `WidgetsSpec.DeepMergeGivesSecond` | lwlib/lwlib.c:543-691 | with a level no less than the depth a merge gives the second tree; the head is unchanged, and toolkit data survives, exactly if the two trees were equal already |
| `WidgetsSpec.FlagIsDifference` | lwlib/lwlib.c:563-681 | the head's change flag is exactly the kind of difference between the two trees, stated without the merge |
| `WidgetsSpec.FlagsPromise` | lwlib/lwlib.c:640-690 | no change exactly if the trees were equal to that level; a structural change exactly if the siblings differ in number, types or names; toolkit data survives exactly if nothing changed |
| `WidgetsSpec.CopiedIsSame` | lwlib/lwlib.c:276-315 | a copy is the same tree apart from flags |
| `WidgetsSpec.CopiesAreMarked` | lwlib/lwlib.c:276-315 | every item of a copy has the change it was made with and no toolkit data; a merge into nothing marks all as structural |
| `Widgets.MergeWidgetValue` | lwlib/lwlib.c:543-691 | overwriting nodes and links in place leaves a tree with the specified value, made of nodes of the first tree and fresh ones, shared nowhere |
| `Widgets.MergeFields` | lwlib/lwlib.c:563-623 | the fields become those of the second item, and the change says how they differed |
| `Widgets.MergeContents` | lwlib/lwlib.c:640-659 | the contents are merged and their disappearance or change is noted as not visible |
| `Widgets.MergeNext` | lwlib/lwlib.c:661-679 | the siblings are merged and their change is passed on |
| `Widgets.Copy` | lwlib/lwlib.c:279-315 | a copy of fresh nodes with the change stored in every one |
| `HexlSpec.UndumpInvertsDump` | lib-src/hexl.c:150-237 | undumping a dump with the same grouping gives the first 2^32 bytes, hence all of them exactly if there are no more, with either character set |
| `HexlSpec.UndumpInvertsDumpFrom` | lib-src/hexl.c:150-237 | the same from every line address on |
| `HexlSpec.LineReadsBack` | lib-src/hexl.c:156-185 | a line with an address of eight digits gives its bytes and one with nine gives nothing; both leave the next line to be read |
| `HexlSpec.CellsReadBack` | lib-src/hexl.c:158-169 | reading the columns of a line gives its bytes and says whether the line was short |
| `HexlSpec.AddressWidth` | lib-src/hexl.c:212-213 | addresses take eight digits below 2^32 and nine below 2^36 |
| `HexlSpec.GroupSize` | lib-src/hexl.c:224-225 | the mask test puts a separator behind every 1, 2, 4 or 8 bytes |
| `HexlLayout.LineLayout` | lib-src/hexl.c:193-237 | a line has its address as eight hexadecimal digits, a colon and a blank, the margin in a fixed column with the character of each byte, and a newline at the end |
| `HexlLayout.ByteLayout` | lib-src/hexl.c:200-226 | byte i stands in column 10 + 2 i + i / (mask + 1) in two hexadecimal digits, blanks stand for bytes that are not there, and a blank ends each group |
| `HexlLayout.DumpLines` | lib-src/hexl.c:193-237 | line k of a dump shows the bytes from 16 k on at address 16 k |
| `HexlLayout.ShownAre` | lib-src/hexl.c:215-219 | which bytes show as themselves and which as a dot, with and without -iso |
| `HexlLayout.TwoCharactersGiveAByte` | lib-src/hexl.c:154-165 | in any text, two characters behind the ten skipped give the byte that the macro makes of them |
| `HexlLayout.BlankEndsLine` | lib-src/hexl.c:160-178 | a blank there ends the line |
| `Hexl.Dump` | lib-src/hexl.c:193-237 | the loop writes the specified text of the whole file, a short last line padded |
| `Hexl.DumpRow` | lib-src/hexl.c:198-226 | one line's columns are written and its margin is in the string buffer, ended by a NUL |
| `Hexl.Undump` | lib-src/hexl.c:150-186 | the loop writes what any text stands for |
| `Hexl.UndumpRow` | lib-src/hexl.c:158-169 | the inner loop writes a line's bytes and leaves `i`, `c` and the input as specified |
| `Hexl.DumpAndBack` | lib-src/hexl.c:150-237 | the two loops one after the other give the file back exactly up to 2^32 bytes |

## Left out

- Foreign calls: sockets, Kerberos, DDE, process creation, X toolkit calls. `RECV` returns any number of bytes or an error; `printf` is a function from values to text; failing memory allocation is not modelled.
- getopt: a `W;` in the option string (`-W foo`), message texts, `__getopt_nonoption_flags`, long options whose value is -1, and callers that move `optind` or change `argv` between calls.
- movemail: the other lock methods, spool permissions, the failing creation of the temporary file (there the program exits before it has a lock, with a saved name not yet filled in), failing reads, delivery agents that do not lock, and clocks that differ between machines.
- movemail: a bound on the time between the decision to break a lock and its removal; the conditions hold without one.
- qsort: elements are values, so SWAP and COPY byte by byte are not modelled; nor is a comparison that is not a total preorder.
- `QuotedPrintable.FromQp`: requires that no escape is cut off by the end of the input, because there `hexchar (EOF)` reads outside its table; boundaries are always null, as `main` passes them.
- `Base64.Decoder.From64`: boundaries are always null, as `main` passes them.
- pop: the send side, `pop_list` and the connection set-up; `Pop.Retrieve` starts when LIST has given the size. Growing the buffer copies, and the overlapping `memcpy` to its front is taken as the move it is meant to be.
- pop: a NUL right behind a leading dot ends a response as in the code; other NULs in lines are kept.
- ootags: the scanners for the various languages, `C_entries`, the keyword hash, `substitute`, `getcwd`, the cxref, vgrind and OO-Browser listings, Windows file names, and the text of the duplicate warnings.
- `Filenames.RelativeFilename`: requires a directory that is absolute, canonical and ends in a slash, and is not the file itself; without that the loops of the source run outside their strings.
- lwlib: widget arguments and scroll bar data (the configuration has neither), the `(widget_value *) 1` mark of incremental menus, freeing of dropped nodes, the narrowing of `strcmp`'s result to a Boolean, and the updating of widgets after a merge.
- hexl: option parsing and more than one file; `long` is 64 bits wide.
- `HexlSpec.UndumpInvertsDump`: says nothing about files of more than 2^36 bytes, whose ten-digit addresses leave a stray colon at the start of the columns.
