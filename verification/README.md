# XEmacs C utilities and the Lucid widget library, in Dafny

This project models the algorithms of the C side of XEmacs whose correctness is hardest to see,
and proves what they are for. Each part has its source file's own shape: arrays changed in place,
loops over characters, static variables and linked records are classes, arrays and loops here;
each of them is proved against a specification function or a stated property, and the laws
of the program are proved about that.

- `QSort`, `QSortItems`: the sort of lib-src/qsort.c on an array of bytes: the swap and the rotation
  of items byte by byte, scans without a bounds test, the explicit stack of 32 slots, and one
  insertion pass at the end.
- `GetOpt`, `GetOptSpec`, `GetOptPrefix`, `GetOptWords`: the option scanner of lib-src/getopt.c, whose calls share
  `optind`, `nextchar`, `first_nonopt` and `last_nonopt` and permute `argv`. A whole run
  is specified by one function of the vector; every call delivers the next event of that run. The
  first call takes a leading '+' or '-' off the option string and later calls do not. `GetOptWords` goes the other way:
  it spells what a user means as a vector, and what is scanned is what was meant.
- `QuotedPrintable`, `QuotedPrintableProofs`, `Base64`, `Base64Proofs`: the two codings of
  lib-src/mmencode.c (sections 6.7 and 6.8 of RFC 2045).
- `Pop`, `PopSpec`: the line reader of lib-src/pop.c over reads of any size, multi-line responses
  (section 3 of RFC 1939), and the retrieval of a message. A read may return any
  non-empty piece of what is still to come, report the end only at the end, or fail.
- `PathNames`, `PathSpec`: normalising and relative names of lib-src/ootags.c. A name is a head without
  slashes and a list of components; the deletion loop refines a stack of components.
- `Widgets`, `WidgetHeap`, `WidgetSpec`, `WidgetRuns`: widget values of lwlib/lwlib.c in a memory of
  linked cells with a free list and argument blocks that are shared and counted; the
  destructive merge of two trees and the severity it reports.
- `WidgetModify`, `WidgetModifySpec`: the loop of `lw_modify_all_widgets`, which cuts entries out of two
  linked lists, merges them by name and links them in again.
- `MenuStack`: the two stacks of open menus of lwlib/xlwmenu.c, the windows that are mapped, and the
  pointer events and keyboard commands that change them.
- `Hexl`, `HexlColumns`, `HexlLoops`: the two loops of lib-src/hexl.c.
- `Bytes`, `Options`: the value types that these share.

## What the proofs found

Each of these has a lemma at an input that shows it, and one that says exactly when it happens.

- An option string that begins with '-' or '+' has that character as an option from the second call on, and
  then no ':' at its start: with "-a", the element "-a-" gives 'a' and '-' (`PrefixBecomesOption`,
  `ColonForgotten`, exactly: `PrefixHarmless`).
- A second scan in order of a permuted `argv` agrees with the first scan exactly unless the first
  ended in a missing argument while elements had been skipped: those then lie behind the
  option that wants one, as in "x -a" (`ArgumentFound`, exactly: `ReparseAgrees`).
- A call after the one that returned -1 goes on at `optind`, and finds what a "--" was to hide, as in "x -- -a"
  (`TerminatorForgotten`, exactly: `CallAtElement`, `CallAgain`).
- `relative_filename` can be undone exactly unless the file's name is the directory followed by an
  empty component, as in "/a//b" seen from "/a/": the relative name is then absolute
  (`EmptyComponentLost`, exactly: `RelativeRoundTrip`).
- `pop_retrieve` writes inside its buffer exactly if the size that LIST gave is at least what its lines, counted with one octet for
  each line end, and the marks not made room for take, and the NUL. An honest server gives less
  for an empty message without marking (`NoRoomForNul`, `OneOctetShort`, exactly: `SafeSizes`, `HonestSize`).
- `merge_widget_value` makes the first tree like the second exactly if they agree below the level that it
  goes down to (`ContentsBelowLost`, exactly: `MergeConverges`).
- `lw_copy_widget_value_args` of an entry without arguments, onto one that shares its block, drops its share of the block but keeps
  pointing at it: once the other holders are freed, an entry in use points at a freed block. Every count stays the number
  of holders exactly if that is not so (`FreedUnderneath`, exactly: `CopyArgs`).
- `getopt` returns the option character 255, where `char` has eight bits and a sign, as -1, and its caller's loop ends
  there (`MuteOption`, exactly: `ScanAll`; never if the option string has no such character, `AllHeard`).
- `remap_menubar` leaves a window unmapped when accelerators have just been turned off and the last menu, which
  they had left closed, is still wanted: as when a menu is opened by the keyboard and then
  pointed at. It stays so until the menu is left or, with accelerators, opened again
  (`LeftUnmapped`, exactly: `RemapMenubar`).
- A hexl listing can be read back exactly up to 2^32 bytes: rows whose address has nine digits are
  passed over in silence (`LastByteLost`, exactly: `RoundTrip`).

That the stack of `qsort` needs no more than log2 of the size, which its comment says, holds, and strictly: with `d` parts
pending, counting the current one, the array has at least 2^(d+1) items (`DepthBound`).

## Model

| member | source | states |
|---|---|---|
| QSortItems.SwapItems | lib-src/qsort.c:30-31 | the byte loop of SWAP exchanges two whole items and touches no other |
| QSortItems.RotateItems | lib-src/qsort.c:217-229 | the byte-wise moves take the item at `run` down to `tmp` and shift those between up by one, whole |
| QSort.MedianOfThree | lib-src/qsort.c:103-123 | only items of the part are rearranged, and `lo` and `hi` become sentinels: at most and at least the pivot |
| QSort.ScanUp | lib-src/qsort.c:132-133 | the scan without a bounds test stops at or before the sentinel, at an item not below the pivot, having passed only items at most the pivot |
| QSort.ScanDown | lib-src/qsort.c:135-136 | the same downwards |
| QSort.Partition | lib-src/qsort.c:100-153 | the part is rearranged in itself into two parts with at most one item between, none in the first larger than any behind it |
| QSort.PhaseStep | lib-src/qsort.c:155-178 | after a partition, whichever parts are kept, items more than MAX_THRESH apart are in order unless one pending part holds both, and nothing crosses the bounds of a pending part |
| QSort.DepthBound | lib-src/qsort.c:39-43 | with pushing the larger part, the number of pending parts is less than log2 of the size, and STACK_SIZE is enough for every `int` |
| QSort.QuickSortPhase | lib-src/qsort.c:91-180 | the loop ends with the items permuted and those more than MAX_THRESH apart in order, inside its stack of 32 slots, whose greatest fill `peak` has 2^(peak+1) <= n |
| QSort.RearrangedMultiset | lib-src/qsort.c:138-143 | rearranging a part keeps the items of the whole array |
| QSort.LeastIsNearTheFront | lib-src/qsort.c:200-202 | the least of the first MAX_THRESH + 1 items is the least of all |
| QSort.PlaceLeast | lib-src/qsort.c:190-205 | a least item of the array ends at the base; the items are permuted |
| QSort.FindSlot | lib-src/qsort.c:213-216 | the scan down without a bounds test stays inside the array and finds where the item belongs |
| QSort.InsertKeepsSorted | lib-src/qsort.c:210-231 | rotating the item into that place extends the sorted front and keeps the least item at the base |
| QSort.InsertionPass | lib-src/qsort.c:207-231 | a pass that starts at the third item sorts the array and permutes its items |
| QSort.QSort | lib-src/qsort.c:79-234 | for every array, item size and total preorder, empty arrays included: it ends, sorted, with the items there were |
| GetOpt.SwapShortBottom | lib-src/getopt.c:328-344 | moving a short bottom block to the far end leaves a smaller exchange with the same result |
| GetOpt.SwapShortTop | lib-src/getopt.c:345-361 | moving a short top block to the bottom leaves a smaller exchange with the same result |
| GetOpt.Scanner.Exchange | lib-src/getopt.c:291-368 | `exchange` swaps the two adjacent blocks, each in its own order, and nothing else, and updates the records |
| GetOpt.ExchangeKeepsFuture | lib-src/getopt.c:536-542 | exchanging the skipped elements with the options behind them changes nothing that the run still delivers |
| GetOpt.Scanner.Initialize | lib-src/getopt.c:375-439 | the prefix of the option string, or POSIXLY_CORRECT, chooses the ordering |
| GetOpt.Scanner.AdvancePermuting | lib-src/getopt.c:534-550 | before an option is read the skipped elements are one block that ends at `optind`, and what is to come is unchanged |
| GetOpt.Scanner.ShortOption | lib-src/getopt.c:896-943 | one option character gives the next event of the run with its argument, from the rest of the element behind the character or the next element, or the code for a missing or unknown one |
| GetOpt.Scanner.Terminate | lib-src/getopt.c:552-580 | a "--" ends in front of the skipped elements and all behind it is left alone |
| GetOpt.Scanner.Advance | lib-src/getopt.c:527-550 | also when skipped elements lie behind `optind`, nothing of what is to come changes |
| GetOpt.Scanner.NextOption | lib-src/getopt.c:523-598 | every call, whatever option string the calls after it have, returns the next event of the run, or -1 with `argv` divided and `optind` at the boundary, from where a further call goes on |
| GetOpt.Scanner.GetOption | lib-src/getopt.c:946-953 | the first call, and one after `optind` was set to 0, starts a run at `optind`, or 1, without the prefix of the option string; later calls go on with it, prefix and all |
| GetOptSpec.StablePartition | lib-src/getopt.c:90-98 | a run loses and adds no element, and keeps the order among the options with their arguments and among the rest |
| GetOpt.ScanAll | lib-src/getopt.c:946-953 | for every option string and ordering, a caller's loop ends, with the events of the run up to the first whose code reads as -1; if there is none, `argv` is the stable partition with `optind` between its parts; and where the vector spells a command line, just the options meant are returned, each with just its argument, the elements they take are in front and the operands behind |
| GetOptSpec.AllHeard | lib-src/getopt.c:896-953 | there is none if no character of the option string reads as -1 |
| GetOptSpec.MuteOption | lib-src/getopt.c:896-953 | an option string and a vector whose first option is taken for the end |
| GetOptWords.LineDelivered | lib-src/getopt.c:523-943 | for every command line and ordering, scanning its spelling delivers what is meant: the flags one by one, an argument that stands behind its option or in the next element, none for an option that may have one and has not, and the code for a missing one; and where each element ends |
| GetOptWords.ArgumentScanned | lib-src/getopt.c:896-943 | behind flags, an option that takes an argument has exactly the text behind it; without any, the next element if it needs one, and none if it may do without |
| GetOptWords.EveryVector | lib-src/getopt.c:523-943 | every vector is the spelling of a command line, so that this says of each what is delivered |
| GetOptWords.LineThen | lib-src/getopt.c:388-398 | the same of option strings with a prefix, as long as it is no option that is meant |
| GetOpt.CallAtElement | lib-src/getopt.c:527-580 | a call between two elements, after the end of a run above all, returns -1 if and only if no option and, in order, no other element is found from `optind` on; if no option character reads as -1 |
| GetOptSpec.CallAgain | lib-src/getopt.c:552-580 | after a permuting run it does if and only if it would on what lies behind the "--" |
| GetOptSpec.TerminatorForgotten | lib-src/getopt.c:552-580 | an input for which it does not |
| GetOptPrefix.OnlyThePrefix | lib-src/getopt.c:388-398 | with and without the prefix, no other character is an option of a different kind |
| GetOptPrefix.PrefixHarmless | lib-src/getopt.c:388-398 | the run is that of the option string without the prefix, for a caller and in full, if and only if behind its first event it meets no character that shows the prefix |
| GetOptPrefix.PrefixBecomesOption | lib-src/getopt.c:388-398 | an input for which the prefix becomes an option |
| GetOptPrefix.ColonForgotten | lib-src/getopt.c:930-933 | an input for which a missing argument is reported by the wrong code |
| GetOptSpec.OptionsFirst | lib-src/getopt.c:534-598 | the options of a permuting run, put before anything that stops a scan, are scanned as they were |
| GetOptSpec.ReparseAgrees | lib-src/getopt.c:376-403 | scanning the permuted vector in order gives the same events and division if and only if no argument was missing or no element skipped |
| GetOptSpec.ArgumentFound | lib-src/getopt.c:920-938 | an input for which it does not |
| GetOpt.ScanTwice | lib-src/getopt.c:946-953 | the same of two callers' loops, one after the other on one vector, with any option string in which no character reads as -1 |
| QuotedPrintable.FromHack | lib-src/mmencode.c:302-332 | what the lookahead for "From " at the start of a line writes, and where its one `ungetc` leaves the input |
| QuotedPrintable.ToQp | lib-src/mmencode.c:277-350 | the loop writes the specified encoding of every file |
| QuotedPrintable.FromQp | lib-src/mmencode.c:352-431 | the loop, which holds each line break back, writes the specified decoding |
| QuotedPrintableProofs.StepStands | lib-src/mmencode.c:281-345 | whatever one turn writes, soft breaks and "=46rom" included, decodes to just the bytes it read, before any text |
| QuotedPrintableProofs.RoundTrip | lib-src/mmencode.c:277-431 | for every byte sequence, decoding the encoding gives it back, and the encoding has no cut-off escape |
| QuotedPrintableProofs.EncodeThenDecode | lib-src/mmencode.c:277-431 | the same of the two loops |
| QuotedPrintableProofs.LineDiscipline | lib-src/mmencode.c:281-349 | every line has at most 76 printable characters, does not end in a blank, does not start with a dot, and after the first not with "From " |
| QuotedPrintableProofs.NothingMoreQuoted | lib-src/mmencode.c:277-350 | the encoder with its lookahead and counters refines encoding byte by byte: what can stand for itself does, and soft breaks come only on a line of more than 72 characters, behind a blank, or at the end |
| QuotedPrintableProofs.EscapeStands | lib-src/mmencode.c:249-263 | an escape with digits of either case, wherever it is, decodes to the byte that they show |
| Base64.Reader.NextCharIn | lib-src/mmencode.c:58-78 | successive calls read the file, with each line break as CR LF in portable mode |
| Base64.To64 | lib-src/mmencode.c:80-122 | the loop writes the specified encoding of every file, in both modes; without its line breaks that is the encoding of section 6.8 of RFC 2045, digit by digit of its table |
| Base64.BasisIs | lib-src/mmencode.c:29-30 | the characters of the table are those of RFC 2045, in their order |
| Base64.CharIs | lib-src/mmencode.c:32-43 | a character has its place in that table for its value, and any other byte -1 |
| Base64.EncodeIsStandard | lib-src/mmencode.c:80-122 | the encoding of any bytes, but for line breaks, is that of the standard: four digits to the base 64, most significant first, for each three bytes, and '=' where bytes are missing |
| Base64.PutGroup | lib-src/mmencode.c:229-243 | the calls of `almostputc` for four characters write the bytes they stand for, as many as the padding leaves |
| Base64.From64 | lib-src/mmencode.c:178-246 | the loop writes the specified decoding of any file, malformed or cut off ones included |
| Base64Proofs.ChunkDecodes | lib-src/mmencode.c:107-122 | the four characters of one to three bytes decode to just those bytes |
| Base64Proofs.FeedExpanded | lib-src/mmencode.c:147-169 | the sink with its pending CR undoes the expansion of line breaks, from any state |
| Base64Proofs.RoundTrip | lib-src/mmencode.c:58-246 | for every byte sequence and in both modes, with runs of CR, CR LF and a CR at the end, decoding the encoding gives it back |
| Base64Proofs.PortableIsCanonical | lib-src/mmencode.c:142-143 | a plain decoder of a portable encoding sees each line break as CR LF |
| Base64Proofs.StandardDecodes | lib-src/mmencode.c:147-246 | a standard encoding is decoded wherever white space stands in it, whatever follows its padding, with each CR LF as a line break in portable mode |
| Base64Proofs.LinesExpanded | lib-src/mmencode.c:58-78 | in portable mode each line is read with a CR LF for its line break |
| Base64Proofs.EncodeThenDecode | lib-src/mmencode.c:80-246 | round trip of the two loops |
| Base64Proofs.LineDiscipline | lib-src/mmencode.c:97-103 | every line has 72 characters of the alphabet or padding, the last one as many or fewer, a multiple of four, and each ends in a line break |
| Pop.FindCrlf | lib-src/pop.c:1557-1571 | finds the first CR LF among `len` bytes that a NUL follows, NULs in them or not |
| Pop.SearchOffset | lib-src/pop.c:1267-1274 | a search from an offset before which no CR LF starts finds the first one of all |
| Pop.PopServer.Grow | lib-src/pop.c:1285-1298 | there is room for one more byte and the NUL, and what was read is kept |
| Pop.PopServer.ReadLine | lib-src/pop.c:1283-1339 | whatever the reads return, the loop delivers the first line of buffered and coming bytes together, though it searches from `search_offset` only |
| Pop.PopServer.GetLine | lib-src/pop.c:1231-1342 | delivers the bytes before the first CR LF, with a NUL behind them and one behind what stays buffered, and consumes nothing more; otherwise the connection is closed |
| PopSpec.SplitSent | lib-src/pop.c:1208-1230 | splitting at CR LF undoes sending lines, whatever unfinished line follows |
| Pop.ReadLines | lib-src/pop.c:1231-1342 | chunk independence: successive calls return the lines of the stream however it is cut into reads, all of them if its end is met |
| Pop.PopServer.MultiFirst | lib-src/pop.c:685-717 | succeeds exactly on a line that begins "+OK", points at the text behind it and its blanks, and leaves what follows pending; otherwise tells refusal from nonsense, with the same bytes pending |
| Pop.PopServer.MultiNext | lib-src/pop.c:728-764 | delivers a line without its stuffed dot, or the end of the response at a lone dot |
| PopSpec.WireLine | lib-src/pop.c:745-763 | a dot-stuffed line is received as it was and never taken for the end |
| PopSpec.BodyOfWire | lib-src/pop.c:728-764 | the response that stuffed lines and their terminator bring is those lines, with what follows still to come |
| PopSpec.SafeSizes | lib-src/pop.c:584-624 | for any size that LIST gives, honest or not, and a response cut off or not, every write is inside the buffer, each line with its mark and LF and the final NUL, if and only if it is at least an explicit number |
| PopSpec.HonestSize | lib-src/pop.c:578-585 | the octets of the message are that many if and only if there is a line or marks are asked for |
| PopSpec.NoRoomForNul | lib-src/pop.c:598-602 | an honest size that is too small |
| PopSpec.OneOctetShort | lib-src/pop.c:584-602 | one octet fewer than an honest size can be too small |
| PopSpec.OneMarkedLine | lib-src/pop.c:584-622 | the five octets that marks bring along, at a message for which they are just enough |
| PopSpec.MessageIsMarked | lib-src/pop.c:604-624 | read line by line, the message has just the lines that came, with a '>' in front of those that begin with the five bytes of "From " if marks are asked for; then no line begins so |
| Pop.PopServer.Store | lib-src/pop.c:604-624 | stores the next line, marked if it begins "From " and marks are asked for, inside the buffer; `MessageIsMarked` says which lines those are |
| Pop.PopServer.Retrieve | lib-src/pop.c:557-629 | whatever the server sends, with a size that is safe: it succeeds only if the first line begins "+OK" and a terminator follows, the message is then the unstuffed lines between, joined with LF and marked just where they begin "From ", the final NUL is inside the buffer, and what follows the response is still pending; otherwise it fails, for a reason that the bytes or a failing socket gave |
| PathNames.ShiftLeft | lib-src/ootags.c:5226-5232 | the copy to the left deletes the characters between, and the string keeps its NUL |
| PathNames.DotDotStep | lib-src/ootags.c:5210-5229 | deleting from the slash before is popping a component, or dropping the two dots at the root |
| PathNames.Turn | lib-src/ootags.c:5206-5238 | one turn of the deletion loop reads one component onto the stack, and less is left |
| PathNames.AbsoluteFilename | lib-src/ootags.c:5188-5244 | the deletion loop ends with the name of the component stack |
| PathSpec.NormalizeIsNormal | lib-src/ootags.c:5204-5243 | the absolute name that results has no "." and no ".." |
| PathSpec.NormalizeLeavesNoDots | lib-src/ootags.c:5204-5243 | nor has what results of any other name, behind the text in front of its first slash |
| PathSpec.NormalIsFixed | lib-src/ootags.c:5204-5243 | normalising leaves a name alone if and only if it has none |
| PathSpec.DotMeansHere | lib-src/ootags.c:5230-5234 | a "." component can be left out anywhere |
| PathSpec.DotDotMeansBack | lib-src/ootags.c:5210-5229 | a ".." component takes back the one in front of it, an empty one too |
| PathSpec.DotDotAtTheRoot | lib-src/ootags.c:5213-5227 | at the first slash there is nothing to take back |
| PathNames.FindFork | lib-src/ootags.c:5159-5168 | the two loops find the last slash up to which, it included, file and directory agree |
| PathNames.RelativeFilename | lib-src/ootags.c:5153-5184 | builds the relative name in a buffer that it and its NUL just fill: one "../" for each directory behind the last that is common, and the way down from there |
| PathSpec.NearestWay | lib-src/ootags.c:5159-5183 | if file and directory have a front in common and part at the next component, the relative name goes up once for each component of the directory behind that front |
| PathSpec.PartsOf | lib-src/ootags.c:5159-5168 | every file and every directory part so |
| PathSpec.NoShorterWay | lib-src/ootags.c:5166-5183 | fewer steps up, with any end of the file's name that starts behind a slash, lead somewhere else |
| PathSpec.RelativeIsRooted | lib-src/ootags.c:5170-5183 | the relative name is absolute itself if and only if the directory and a slash are a front of the file |
| PathSpec.RelativeRoundTrip | lib-src/ootags.c:5151-5244 | resolving the relative name in the directory gives the file back if and only if that is not so |
| PathNames.ThereAndBack | lib-src/ootags.c:5151-5244 | the same of the two functions, for every file and working directory |
| PathSpec.EmptyComponentLost | lib-src/ootags.c:5151-5244 | a file and a directory for which it is so |
| Widgets.Lwlib.MallocWidgetValue | lwlib/lwlib.c:93-112 | hands out a cleared cell that was not in use: the first of the free list if there is one, and else a new one |
| Widgets.Lwlib.FreeArgs | lwlib/lwlib.c:1432-1451 | one holder less; the block goes if and only if that was the last |
| Widgets.Lwlib.CopyArgs | lwlib/lwlib.c:1453-1468 | both cells hold the one block, and every count stays the number of holders, if and only if it is not so that the first has no block and the second one that others share; then that one is left pointing at a block that does not count it |
| Widgets.Lwlib.AddArg | lwlib/lwlib.c:1399-1416 | the first argument makes a block with one holder; the block is marked as changed |
| Widgets.Lwlib.CopyTree | lwlib/lwlib.c:274-310 | a tree of new cells with the same data and shared argument blocks; the original is untouched |
| Widgets.Lwlib.FreeTree | lwlib/lwlib.c:126-172 | just the cells of the tree go out of use, and every count is right |
| Widgets.Lwlib.ReplaceTree | lwlib/lwlib.c:314-328 | the tree at the same address becomes a copy of the other; old cells and the copied head are free |
| Widgets.Lwlib.MergeArgs | lwlib/lwlib.c:238-268 | both entries hold one block, the new one's if it has one and else the old one's, and a change is reported when they did not or it was marked |
| Widgets.Lwlib.MergeTree | lwlib/lwlib.c:530-678 | the merge in place gives the specified tree (what that is says `MergeIsMerged`), fills in argument blocks of the second, frees what is gone, and touches no other cell |
| WidgetSpec.MergeConverges | lwlib/lwlib.c:530-678 | the merged tree has the data of the second one if and only if they agree below the level that is merged |
| WidgetSpec.MergeWithinConverges | lwlib/lwlib.c:530-678 | for trees nested no deeper than the level they are always equal |
| WidgetSpec.ContentsBelowLost | lwlib/lwlib.c:627-646 | two trees that a merge at level 1 leaves different |
| WidgetSpec.ReportIsHonest | lwlib/lwlib.c:550-668 | the reported change is structural iff the siblings' types and names differ, else visible iff their looks or arguments do, else invisible iff anything else does down to the level |
| WidgetSpec.NoneReported | lwlib/lwlib.c:550-668 | no change is reported if and only if nothing that can be seen differed or was marked |
| WidgetSpec.MergeFillsArgs | lwlib/lwlib.c:248-254 | down to the level both trees end alike, argument blocks included |
| WidgetSpec.MergeIsMerged | lwlib/lwlib.c:530-678 | entry by entry, at every level: the new data, the new argument block or the old one if there is no new one, the change reported there, and toolkit data only where nothing changed |
| WidgetSpec.FilledIsTakenOver | lwlib/lwlib.c:248-254 | the second tree is left as it is, but for blocks it takes over where it has none |
| WidgetSpec.NewBlocksWin | lwlib/lwlib.c:255-261 | if every entry of the second tree has arguments, nothing of the first one's is left in sight |
| WidgetSpec.SecondMergeIsQuiet | lwlib/lwlib.c:530-678 | merging the same two trees again reports no change, unless a block is marked |
| WidgetModify.FindEntry | lwlib/lwlib.c:776-777 | the search ends at the first entry of the name, with the one in front of it, or at the end |
| WidgetModify.LinkIn | lwlib/lwlib.c:783-788 | the merged entry stands between the entries before it and those behind it, and nothing else is linked differently |
| WidgetModify.ModifyList | lwlib/lwlib.c:771-800 | for any two lists, the loop over cut-out entries ends with the specified list at the head it returns, touches no cell of other trees, and leaves the list of new entries linked as it was, changed in argument slots only |
| WidgetModify.ClearChanges | lwlib/lwlib.c:749-754 | at the top of the list, and only there, changes are forgotten and argument blocks unmarked |
| WidgetModify.ModifyAllWidgets | lwlib/lwlib.c:757-803 | both together, deep or not: lists, counts, marks and a frame |
| WidgetModifySpec.AllNames | lwlib/lwlib.c:771-800 | no entry goes or moves, and names that were not there come to the end, once each, in order |
| WidgetModifySpec.OthersLeft | lwlib/lwlib.c:776-790 | an entry whose name is not among the new ones, or not the first of its name, is left as it is, in its place |
| WidgetModifySpec.NewOnesThere | lwlib/lwlib.c:771-800 | the first entry of each new name ends with all the data of the new one, for entries of different names nested no deeper than the level |
| WidgetModifySpec.NewOnesMerged | lwlib/lwlib.c:771-800 | of any depth, the first entry of each new name is what merging makes of the one that had the name: with the new argument block if there is one |
| WidgetModifySpec.NewOnesKept | lwlib/lwlib.c:771-800 | the new entries are then what they were, but for argument blocks taken over |
| WidgetModifySpec.OnlyTopCleared | lwlib/lwlib.c:749-754 | below the top of the list changes are still reported |
| WidgetHeap.CountsDown | lwlib/lwlib.c:1436-1448 | taking a holder away keeps every count the number of holders, and removes a block without any |
| Widgets.MoveCount | lwlib/lwlib.c:325-326 | overwriting a cell with another moves its share of a block and changes no count |
| WidgetRuns.AnyRun | lwlib/lwlib.c:93-172 | in every state that a run of building, copying, freeing, merging, replacing, modifying by name, adding arguments to any cell and copying arguments between any two cells reaches, the latter where `CopyArgs` keeps the counts, cells in use are just those of the trees at hand, none twice and none on the free list, and each block is there and counts them if and only if some point at it |
| WidgetRuns.FreedUnderneath | lwlib/lwlib.c:1399-1468 | four calls after which an entry in use points at a freed block |
| WidgetRuns.CopyThenFree | lwlib/lwlib.c:165-310 | freeing a copy undoes the copying: all cells in use, argument blocks and counts are as before |
| WidgetRuns.BlocksDetermined | lwlib/lwlib.c:1432-1468 | the argument blocks there are, with their counts, follow from the cells in use |
| MenuStack.MenuWidget.constructor | lwlib/xlwmenu.c:3247-3258 | at first the menu bar alone is shown and wanted |
| MenuStack.MenuWidget.PushNewStack | lwlib/xlwmenu.c:250-269 | the wanted stack grows by one entry, in a larger array if need be |
| MenuStack.MenuWidget.PopNewStackIfNoContents | lwlib/xlwmenu.c:271-277 | an entry without contents is no longer wanted, one with contents still is |
| MenuStack.MenuWidget.SetNewState | lwlib/xlwmenu.c:2473-2483 | the wanted stack is a front of the shown one and the entry given |
| MenuStack.Reconciled | lwlib/xlwmenu.c:2669-2715 | popping up from where the stacks part and down from the end maps just what a redraw would, window by window |
| MenuStack.MenuWidget.RemapMenubar | lwlib/xlwmenu.c:2616-2716 | the shown stack becomes the wanted one, and the windows are those of a full redraw but for those still missing: the one that gets stuck, and those that stay wanted in the same place and that accelerators do not open again |
| MenuStack.MenuWidget.HandleMotion | lwlib/xlwmenu.c:3427-3508 | a pointer event leaves the stacks equal, at the menus that the event asks for, accelerators off, and the windows those of a redraw but for those still missing |
| MenuStack.MenuWidget.Select | lwlib/xlwmenu.c:3557-3579 | a release that ends it all leaves the menu bar alone and no window, any other the stacks as they were |
| MenuStack.MenuWidget.Redisplay | lwlib/xlwmenu.c:3305-3317 | what is shown is wanted again, and what the keyboard had prepared is forgotten |
| MenuStack.MenuWidget.SetMenu | lwlib/xlwmenu.c:3607-3612 | an entry of the menu bar is wanted, nothing else changes |
| MenuStack.MenuWidget.DisplayMenu | lwlib/xlwmenu.c:3679-3690 | the wanted stack is shown with accelerators on |
| MenuStack.MenuWidget.PushMenu | lwlib/xlwmenu.c:3693-3697 | one entry more is wanted |
| MenuStack.MenuWidget.PopMenu | lwlib/xlwmenu.c:3700-3708 | one entry less is wanted, if there is one |
| MenuStack.MenuWidget.SetItem | lwlib/xlwmenu.c:3731-3737 | another entry is wanted in place of the last |
| MenuStack.MenuWidget.KillMenus | lwlib/xlwmenu.c:3710-3718 | the menu bar alone is left, no window, and none missing |
| MenuStack.AnyEvents | lwlib/xlwmenu.c:3427-3737 | after every run of pointer events and keyboard commands, in any order, the windows are those of a full redraw but for the missing ones, and none is missing unless the keyboard was used |
| MenuStack.LeftUnmapped | lwlib/xlwmenu.c:2644-2674 | a run that leaves a wanted window unmapped |
| Hexl.HexReads | lib-src/hexl.c:233 | the address column shows the address |
| Hexl.CellsWidth | lib-src/hexl.c:223-251 | the hexadecimal part of every row is equally wide, so that the text column is straight |
| HexlColumns.ListingShows | lib-src/hexl.c:215-260 | each line of a listing shows its sixteen bytes: the address, at its column for each byte two digits, a blank behind each group, and the text with printable bytes as themselves and all others as '.' |
| HexlLoops.PrintRow | lib-src/hexl.c:221-254 | the inner loop and `puts` print one line of the listing, with the text up to the end of the row |
| HexlLoops.Dump | lib-src/hexl.c:215-260 | the loop prints the listing of any file |
| Hexl.ReadCells | lib-src/hexl.c:175-187 | the hexadecimal part is read back as the row, a partial row up to its first blank cell |
| HexlLoops.Undump | lib-src/hexl.c:167-205 | the `-un` loop ends on any input, and writes what the listing is specified to hold |
| Hexl.ReadLine | lib-src/hexl.c:167-205 | a line with an eight-digit address is read back as its row, also when the row ends in a blank byte |
| Hexl.PassLine | lib-src/hexl.c:173-178 | a line with a nine-digit address gives nothing |
| Hexl.RoundTrip | lib-src/hexl.c:167-262 | with any grouping, a file of up to 2^36 bytes is read back if and only if it has at most 2^32; otherwise its first 2^32 bytes are |
| Hexl.LastByteLost | lib-src/hexl.c:233 | a file that is not |
| HexlLoops.DumpThenUndump | lib-src/hexl.c:167-262 | the same of the two loops |

## Left out

- `getopt`: long names and their prefixes, `-W foo`, `long_only`, the `_LIBC` flags, and the messages printed to stderr. Option strings are without "W;", which lets `getopt`, which has no table of long names, read through a null pointer at the option W.
- Option characters are read as codes of a signed `char` with eight bits; where `char` is unsigned, none reads as -1.
- Callers of `getopt` that move `optind` out of `argv`, or in the middle of an element, or forward without permuting; moved back between two elements it is covered.
- QSort.QSort: `int` overflow of `size * n` is not modelled; items are named by index and not by pointer, and the comparator is a pure function.
- `mmencode`: multipart boundaries (`main` passes none), and with them `sawnewline` and the `newline` flag; the warning about a premature end.
- QuotedPrintable.FromQp: the file may not end inside an escape, where the original looks up `EOF` in its table.
- Sockets, name service, Kerberos and the login of pop.c; a read is any non-empty piece of what is to come, and whether a write succeeds is arbitrary.
- Pop.PopServer.SendLine: what goes out is not modelled: the original builds a line with CR LF and sends the one without.
- Pop.PopServer.Trash: the RSET and QUIT it sends are not modelled.
- Pop.PopServer.Retrieve: the answer to LIST is its `size` parameter, and sizes smaller than `LeastSize` are excluded, for which the original writes behind its buffer (`SafeSizes`).
- `pop_multi_flush`: it takes a blank line for the end, so that it does not drain the response.
- The overlapping `memcpy` in pop.c and `strcpy` in ootags.c are modelled as the shifts to the left that are meant.
- PathNames.RelativeFilename: a directory that is the file itself is excluded; the original then runs past the end of both strings.
- The Windows branches of all files, drive letters among them, and failing allocation in all files.
- Taggers, regular expressions and the keyword table of ootags.c.
- WidgetModify.ModifyAllWidgets: showing the changes in the widgets (`update_one_widget_instance`), which comes before they are forgotten, is left out, and so is the list of widgets and their ids; a name that is a null pointer, which the original hands to `strcmp`, equals itself only.
- Widgets.Lwlib.AddArg: the arguments in a block are not modelled, nor is the limit on their number, behind which nothing is marked.
- Scrollbar data, the contents value 1 for a menu still to be built, the toolkit's own freeing, and the 0xDEADBEEF that is written to freed cells.
- Two different strings whose `strcmp` result truncates to a false `Boolean`; strings are compared exactly.
- Drawing, geometry, selection and grabbing in xlwmenu.c; the menu tree is fixed, so that `incremental` menus are not filled in.
- MenuStack.MenuWidget.RemapMenubar: a wanted stack that is empty is excluded (the original reads before its start); the wanted stack starts with the menu bar that is shown.
- The Lisp side of the keyboard commands: which entries are pushed and set is left open, but they are entries of the last menu. Popping the menu bar itself is not followed further (the next remapping of the original reads before its stack).
- Hexl.RoundTrip: files over 2^36 bytes are excluded; their rows with ten address digits are read as garbage. `-oct` and the endian switches, which the original does not use, are left out.
