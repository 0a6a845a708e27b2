# Verified models of the OpenSwitch CLI library

This project models the algorithmic core of the library behind the OpenSwitch command line
(`lib/` of ops-cli, derived from Quagga) and proves what that code is relied on for. Each module
follows one source file. Code that changes state step by step is modelled by classes and methods
with loops over arrays, linked nodes or sequence-valued fields; each such method is proved against
a specification, and the promises are proved of the specification or of whole runs of methods.

| file | module | models |
|---|---|---|
| `SigEvent.dfy` | `SigEvent` | the signal flags shared by asynchronous handlers and the main loop |
| `Buffer.dfy` | `Buffers` | the output buffer, its flushing and its paging window |
| `RouteMap.dfy` | `RouteMaps` | the route-map interpreter and its editing operations |
| `Getopt.dfy` | `Getopt` | GNU option parsing in PERMUTE order |
| `GetoptWritten.dfy` | `GetoptWritten` | what option decoding means, by writing options and reading them back |
| `CommandFormat.dfy` | `CommandFormat` | the parser of command format strings and help texts |
| `CommandKeyword.dfy` | `CommandKeyword` | the matcher of keyword groups |
| `Hash.dfy` | `Hashing` | the expanding hash table |
| `PQueue.dfy` | `PriorityQueue` | the binary heap with position reports |
| `Checksum.dfy` | `Checksums` | the Fletcher and Internet checksums |
| `Md5.dfy` | `Md5s` | MD5 streaming, padding and HMAC |
| `Prefix.dfy` | `Prefixes` | address prefixes, containment and masking |
| `Plist.dfy` | `PrefixLists` | prefix lists on doubly linked entries, and named lists |
| `LinkList.dfy` | `LinkLists` | the doubly linked list with sorted insertion |
| `IfName.dfy` | `InterfaceNames` | the order of interface names and the interface list |
| `Sequences.dfy` | `Sequences` | insertion into and removal from a sequence |
| `Types.dfy` | `Types` | options and bytes |

`dafny verify dfyconfig.toml` checks the whole project.

## Where the code and its promises differ

Some promises hold only under a condition. The code is modelled as it is, and the condition is
proved exact.

- The static recursion counter of `route_map_apply` is not restored after the limit is hit: it ends
  RMAP_RECURSION_LIMIT + 1 lower (`RouteMaps.Interpreter.Apply`, `RouteMaps.Interpreter.ApplyAll`).
  The cap on active bodies holds if and only if the counter does not start below zero
  (`RouteMaps.CapHoldsIffCounterNonNegative`). A map whose calls nest at most h deep never hits the
  limit while counter + h <= RMAP_RECURSION_LIMIT, so the counter is restored after every route
  (`RouteMaps.ShallowNeverHits`). A route that does not hit the limit at a lower counter hits it at a
  higher one if and only if it nests deeper than that one leaves room for (`RouteMaps.HitExactly`).
- The comment at lib/routemap.c:731 speaks of preferences greater than the goto target; the code
  accepts a preference equal to it, and so does the model.
- The format parser does not clear its vector of multiple alternatives when a keyword group ends.
  A printed command parses back to its own tree if and only if no token follows a multiple that
  follows a keyword group with a multiple in it (`CommandFormat.ParsePrintRoundTrip`).
- A Fletcher checksum is computed from a size_t value cast to int. It validates if and only if the
  multiples of 2^32 lost by the cast are a multiple of 255 in number
  (`Checksums.GenerateThenValidate`); `Checksums.CastBreaksChecksum` is a packet that fails. Every
  packet of a length validates if and only if len - offset - 1, brought near zero by multiples of
  255 * 2^32, times 254 stays within an int (`Checksums.LengthDecides`); below 2^32 bytes that is
  (len - offset - 1) * 254 < 2^31, but from 2^32 on there are safe distances again, such as
  255 * 2^32 (`Checksums.NearDistances`). The comment at lib/checksum.c:50 that a chunk of 5802 bytes
  should be fine is refuted for the signed accumulators the code has (`Checksums.ModxIsLargest`).
- `md5_loop` counts bits in 32-bit arithmetic. The padding is that of RFC 1321 if and only if the
  pieces' lengths wrap 2^29 bytes a multiple of 2^32 times in all (`Md5s.CountedExactly`);
  one piece of 2^29 bytes fails (`Md5s.CountBreaksPadding`).
- Two names compare "less" both ways if and only if they have the same tokens and end in a non-digit
  (`InterfaceNames.CmpMeans`; "a1b" and "a01b" are such names, `InterfaceNames.LessBothWays`), which
  does not harm sorted insertion (`InterfaceNames.CmpDecides`).
- Withdrawing an outbound route filter of a list that does not exist fails but leaves an empty list
  behind, which permits what the missing list denied (`PrefixLists.MissedUnsetPermits`). A failed
  withdrawal leaves the lists alone if and only if the list existed or the bounds were refused, and
  then alone keeps the verdict on its name (`PrefixLists.FailedUnset`). Setting and
  withdrawing loses an empty, undescribed list that was there before (`PrefixLists.UnsetUndoesSet`).
- The command-line deletion of a prefix-list entry does not apply the rewrite of bounds that
  installation applies, and finds what the same words installed if and only if nothing was rewritten,
  with or without a sequence number (`PrefixLists.UninstallFindsInstalled`; an entry that is missed is
  in `PrefixLists.UninstallMisses`).
- An automatic sequence number fits an int if and only if the largest number in use is below
  2147483645 (`PrefixLists.NewSeqFits`).
- Bytes of a window that the kernel does not take are not kept. None is lost if and only if as many
  bytes are accepted as were shown (`Buffers.Buffer.FlushWindow`, `Buffers.NothingLost`).
- The size check of `hash_create_size` accepts zero besides the powers of two
  (`Hashing.SizeAcceptedMeans`); such a table has no chain, yet each key selects the chain of its own
  number (`Hashing.ZeroSizeSelectsKey`).

## Model

| member | source | states |
|---|---|---|
| `SigEvent.StepPreserves` | lib/sigevent.c:54-122 | every single step of a handler activation or of the processing loop keeps the protocol invariant relating master flag, per-signal flags, unfinished activations and the scan position |
| `SigEvent.ExecPreserves` | lib/sigevent.c:54-122 | so does every interleaving of such steps |
| `SigEvent.NoSignalLostOrInvented` | lib/sigevent.c:54-122 | over every interleaving from the initial state: an owed signal has its flag set, will have it set or is about to be dispatched; a set flag has the master flag set, an unfinished activation of its own signal, or the scan still ahead; dispatches never exceed arrivals |
| `SigEvent.ProcessDelivers` | lib/sigevent.c:71-122 | a process call begun after an owed signal's own activations have finished has dispatched that signal when it returns, whatever arrives meanwhile and whatever activations of other signals are unfinished |
| `SigEvent.ProcessReturns` | lib/sigevent.c:71-122 | a process call returns within a fixed number of its own steps under any interleaving |
| `SigEvent.BoundPersists` | lib/sigevent.c:104-116 | once a call is bound to dispatch a signal, no later step of either side releases it from that |
| `SigEvent.LostStaysLost` | lib/sigevent.c:97-102 | with that order a flag set behind a clear master flag stays so, and no handler is called, through any number of calls without an arrival |
| `SigEvent.LateClearLosesSignal` | lib/sigevent.c:97-102 | had the master flag been cleared after the scan instead of before it, every signal arriving in between would be lost through any number of later calls until another signal arrives: the order the comment demands is necessary |
| `Buffers.Buffer.constructor` | lib/buffer.c:69-90 | an empty buffer with the requested chunk size, or by default the least whole number of pages that holds 4096 bytes |
| `Buffers.Buffer.Reset` | lib/buffer.c:131-143 | nothing is pending and the chunk size is kept |
| `Buffers.Buffer.GetStr` | lib/buffer.c:101-121 | the pending bytes in order and a terminator, with the queue untouched |
| `Buffers.Buffer.Add` | lib/buffer.c:146-162 | a new last chunk that leaves the pending bytes the same |
| `Buffers.Buffer.PutSome` | lib/buffer.c:171-185 | one turn of the copy loop appends a non-empty prefix of the data and keeps the chunk invariant |
| `Buffers.Buffer.Put` | lib/buffer.c:165-186 | the pending bytes grow by exactly the data; every chunk keeps sp < cp <= size and all but the last are full |
| `Buffers.Buffer.Gather` | lib/buffer.c:406-421 | the io-vector holds a prefix of the pending bytes, non-empty when anything is pending, in at most MAX_CHUNKS elements, and stops short of the last chunk only at MAX_CHUNKS elements or MAX_FLUSH bytes |
| `Buffers.Buffer.Consume` | lib/buffer.c:434-454 | exactly the written bytes leave the front, and the "corruption detected" branch is never taken |
| `Buffers.Buffer.FlushAvailable` | lib/buffer.c:392-460 | against any kernel behaviour, accepted bytes followed by pending bytes stay the same stream; each return code means what it says; an error changes nothing |
| `Buffers.Buffer.FlushAll` | lib/buffer.c:204-224 | the same conservation for the flush loop; it ends empty, with an error that is not a reason to retry, or pending for a reason other than an interrupt |
| `Buffers.Buffer.Write` | lib/buffer.c:462-496 | the data follows what was submitted before, split between kernel and queue; an error can only occur with nothing queued and then changes nothing |
| `Buffers.Session` | lib/buffer.c:165-496 | over any run of put, write and flush operations up to the first error, accepted bytes followed by pending bytes are all submitted bytes in order |
| `Buffers.WindowTakesShortest` | lib/buffer.c:284-304 | the window takes the shortest prefix of the flat pending bytes that uses up its lines under the column machine, or everything |
| `Buffers.LinesCounted` | lib/buffer.c:290-301 | what counts as a line: plain text one for each full width, a line feed one more, a carriage return none; both start again at the first column |
| `Buffers.WindowLeavesRoom` | lib/buffer.c:247-260 | a window of two or more lines leaves the last for the prompt and shows the shortest text that fills the others, or everything; sizes below one count as one |
| `Buffers.Buffer.ScanChunk` | lib/buffer.c:285-304 | scanning one chunk advances the machine on the flat bytes, wherever the chunk ends |
| `Buffers.Buffer.ShowChunk` | lib/buffer.c:262-330 | showing one chunk stores in bounds exactly the bytes it takes from the flat pending bytes |
| `Buffers.Buffer.FillWindow` | lib/buffer.c:253-330 | the io-vector holds the erase string, if asked for, and exactly the window's prefix, independent of chunk boundaries; the small_iov overflow branch is unreachable and room for "--More--" remains |
| `Buffers.Buffer.FreeUsed` | lib/buffer.c:371-378 | freeing the used-up chunks restores the chunk invariant and no pending byte changes |
| `Buffers.Buffer.FlushWindow` | lib/buffer.c:228-385 | what the writev calls offer is exactly erase string, window prefix and "--More--", the latter when bytes remain and it is not suppressed, and after an error a prefix of that; no more is accepted than offered, and full writes deliver those very bytes; accepted and pending bytes together are all that was shown and pending if and only if as many were accepted as shown; the rest stays pending; return codes mean what they say |
| `Buffers.NothingLost` | lib/buffer.c:341-378 | no byte shown is lost if and only if as many bytes are accepted as were shown |
| `Buffers.SendVector` | lib/buffer.c:341-369 | calls of at most IOV_MAX elements offer the whole vector in order, or a prefix of it up to the call that failed |
| `RouteMaps.Interpreter.LookupByName` | lib/routemap.c:156-166 | the first map of that name |
| `RouteMaps.LookupFinds` | lib/routemap.c:156-166 | that map is found exactly when some map has the name, and none before it does |
| `RouteMaps.MatchAllMeans` | lib/routemap.c:757-785 | match rules match when each does on the route those before it left; the first that does not gives answer and route |
| `RouteMaps.SetAllMeans` | lib/routemap.c:823-826 | each set rule is applied to the route those before it left, and the last one's answer is kept |
| `RouteMaps.NoMatchDenies` | lib/routemap.c:711-755 | a map none of whose clauses matches denies |
| `RouteMaps.DenyDenies` | lib/routemap.c:711-755 | a deny clause that matches first denies |
| `RouteMaps.PermitWithoutCall` | lib/routemap.c:711-755 | a permit clause that matches first applies its sets: on exit they give the verdict whatever follows, on next the later clauses do on the changed route, on goto those from the first later one with preference at least the target, or the sets if there is none |
| `RouteMaps.PermitWithCall` | lib/routemap.c:711-755 | with a call the called map is applied after the sets: its denial denies, otherwise its verdict and route take the place of theirs under the same exit policies; a missing map counts as no call unless the sets deny |
| `RouteMaps.Interpreter.ApplyMatch` | lib/routemap.c:757-785 | the match rules of a clause in order, stopping at the first that does not match; no rules match |
| `RouteMaps.Interpreter.ApplySets` | lib/routemap.c:823-826 | every set rule is applied in order to the route, and the last one's result is kept |
| `RouteMaps.GotoTarget` | lib/routemap.c:852-868 | the first clause from a position on whose preference is at least the target, or the end |
| `RouteMaps.Interpreter.SkipTo` | lib/routemap.c:852-868 | the skipping loop lands on that clause |
| `RouteMaps.Interpreter.ApplyCall` | lib/routemap.c:828-844 | a call yields the recursive reading of the called map one level deeper; a missing map leaves the result; the counter is restored unless the limit was hit |
| `RouteMaps.Interpreter.Apply` | lib/routemap.c:788-880 | terminates for every set of maps, cyclic calls included, with the verdict and route of the documented permit/deny/next/goto/call matrix read recursively; the counter is restored unless the limit was hit and is then RMAP_RECURSION_LIMIT + 1 lower; the bodies active at once are as many as in that reading, at most RMAP_RECURSION_LIMIT + 1 less the counter |
| `RouteMaps.Interpreter.ApplyPermit` | lib/routemap.c:821-868 | a matching permit clause: its sets, its call, and whether the map is left, continued or continued at the goto target |
| `RouteMaps.Interpreter.ApplyBody` | lib/routemap.c:809-879 | the clause loop computes the reading of the map and the same number of active bodies |
| `RouteMaps.Interpreter.ApplyAll` | lib/routemap.c:788-880 | over any sequence of routes the verdicts and routes are those of the reading at the counter each one meets, and the counter has sunk by RMAP_RECURSION_LIMIT + 1 for every route that hit the limit |
| `RouteMaps.HitDenies` | lib/routemap.c:797-804 | a limit hit anywhere below denies the whole route |
| `RouteMaps.BodiesBounded` | lib/routemap.c:792-838 | at most RMAP_RECURSION_LIMIT + 1 - depth bodies are active, and a hit uses them all |
| `RouteMaps.LimitOnlyDenies` | lib/routemap.c:711-880 | the limit never alters a verdict other than by denying: runs that do not hit it agree whatever the counter held |
| `RouteMaps.ShallowNeverHits` | lib/routemap.c:797-838 | a map whose calls nest at most h deep does not hit the limit on any route while counter + h is within it |
| `RouteMaps.HitExactly` | lib/routemap.c:797-838 | given a lower counter at which a route does not hit the limit, it does at a higher one if and only if it nests deeper than that leaves room for |
| `RouteMaps.SelfCallingHits` | lib/routemap.c:797-838 | a map that calls itself hits the limit from every starting depth |
| `RouteMaps.CapHoldsIffCounterNonNegative` | lib/routemap.c:792-838 | no set of maps can have more than RMAP_RECURSION_LIMIT + 1 bodies active if and only if the counter starts at zero or above |
| `RouteMaps.WithoutKeepsOthers` | lib/routemap.c:565-574 | removing a command's rules leaves none of them and all others, one for each command |
| `RouteMaps.RemoveRules` | lib/routemap.c:565-574 | one walk removes every rule of the command and tells whether there was one |
| `RouteMaps.AddRule` | lib/routemap.c:539-596 | exactly when each error is returned, with the list unchanged; otherwise the new rule replaces the command's old ones at the end and each command has one rule; `route_map_add_set` is the same |
| `RouteMaps.RouteMap.IndexLookup` | lib/routemap.c:340-356 | the first clause of the preference and, unless any is asked for, of the type |
| `RouteMaps.RouteMap.IndexAdd` | lib/routemap.c:358-408 | a fresh clause goes before the first clause whose preference is not smaller, nothing else moves |
| `RouteMaps.RouteMap.IndexGet` | lib/routemap.c:410-427 | preferences stay strictly ascending; the clause of that preference and type is kept or made afresh in place; all others are unchanged |
| `Getopt.RotatedBlocks` | lib/getopt.c:309-387 | the index-wise rotation is the exchange of two adjacent blocks |
| `Getopt.MoveBottomUp` | lib/getopt.c:347-363 | swapping the shorter bottom block with the far end leaves a smaller rotation to do |
| `Getopt.MoveTopDown` | lib/getopt.c:364-380 | swapping the shorter top block with the near end leaves a smaller rotation to do |
| `Getopt.RotateBlocks` | lib/getopt.c:309-387 | two adjacent blocks of any lengths are exchanged in place, each in its own order, and nothing else changes |
| `Getopt.Parser.Exchange` | lib/getopt.c:309-387 | the rotation together with the new bounds of the skipped operands |
| `Getopt.Parser.Regroup` | lib/getopt.c:558-566 | skipped operands move behind the options scanned since, keeping the scan invariant |
| `Getopt.Parser.SkipOperands` | lib/getopt.c:556-573 | further operands are skipped up to an option element or the end, keeping the scan invariant |
| `Getopt.Parser.StopAtDashDash` | lib/getopt.c:576-592 | "--" ends the scan: it joins the options, everything after it the operands |
| `Getopt.Parser.NextElement` | lib/getopt.c:547-622 | either the scan is complete and argv is partitioned with optind at the first operand, or the next option element is at hand |
| `Getopt.DecodeProgress` | lib/getopt.c:624-970 | decoding one option consumes at least one character, at most one further argument and never reports the end |
| `Getopt.Parser.DecodeNext` | lib/getopt.c:624-970 | decoding one option keeps the scan invariant, makes progress and reports the first of the options still to be reported |
| `Getopt.UnreportedDecode` | lib/getopt.c:624-970 | the option and argument decoded next, followed by what remains, are the options still to be reported |
| `Getopt.Parser.Next` | lib/getopt.c:516-970 | one call keeps the invariant, makes progress and reports the next option with its argument, or ends with argv partitioned and nothing left to report |
| `Getopt.PickPartitions` | lib/getopt.c:99-101 | options and operands together are a permutation of the arguments |
| `Getopt.Run` | lib/getopt.c:473-476 | every run of calls in PERMUTE order ends, having reported exactly the options and arguments that decoding the original argv in order gives, with argv the program name, then options, their arguments and any "--", then operands, both groups in their original order, a permutation of the original, and optind at the first operand |
| `GetoptWritten.OptionReadBack` | lib/getopt.c:624-970 | one option written as flags in a cluster, with an attached, separate or left-out argument, or as a long name exact or uniquely abbreviated, with "=value" or the next element, is reported as that option with that argument, and uses up exactly the elements it was written in |
| `GetoptWritten.ReadBack` | lib/getopt.c:389-476 | options and operands written in any order, then "--" and anything: exactly the options meant are reported in order, their elements and the "--" are the options, and the operands with all that follows "--" are the operands |
| `GetoptWritten.UnknownFlag` | lib/getopt.c:772-797 | a character the option string does not have is reported as '?', and reading goes on behind it |
| `GetoptWritten.MissingArgument` | lib/getopt.c:935-963 | an option that needs an argument with nothing behind it is reported as ':' if the option string starts with a colon, else as '?' |
| `GetoptWritten.RefusedLong` | lib/getopt.c:652-790 | a long name that is ambiguous or unknown, that has a value it may not have, or that lacks one it needs is reported as an error |
| `CommandFormat.ParsePrintRoundTrip` | lib/command.c:435-672 | parsing the printed form of a well-formed command gives exactly its token tree with the k-th help line at the k-th terminal, if and only if no token follows a multiple that follows a keyword group with a multiple in it |
| `CommandFormat.KeywordLastRoundTrip` | lib/command.h:306-345 | in particular for every command of the documented grammar whose keyword group is its last token |
| `CommandFormat.StaleVectorExample` | lib/command.c:478-531 | "{a (b)} (c) d" does not parse to its own tree |
| `CommandFormat.RunItems` | lib/command.c:623-672 | the parser performs on printed text exactly the actions of the printed items, and crashes exactly where they do |
| `CommandFormat.DoItemsFaithful` | lib/command.c:435-672 | those actions build the tree of the items when no stale vector is used |
| `CommandFormat.DoItemsUnfaithful` | lib/command.c:478-531 | and lose a token from the top level when one is used |
| `CommandFormat.ReadDescTakesLine` | lib/command.c:358-391 | reading a description takes the next help line and leaves the others |
| `CommandFormat.FormatParser.DescStr` | lib/command.c:358-391 | the description reader on its pointer does that reading |
| `CommandFormat.FormatParser.StartKeyword` | lib/command.c:435-457 | '{' opens a keyword vector, or is refused inside one or inside a multiple |
| `CommandFormat.FormatParser.StartMultiple` | lib/command.c:459-482 | '(' opens a multiple in the current vector |
| `CommandFormat.FormatParser.StopKeyword` | lib/command.c:484-497 | '}' returns to the top level or is refused |
| `CommandFormat.FormatParser.StopMultiple` | lib/command.c:499-531 | ')' returns to the intermediate vector when one is set, reading one more description after a bar |
| `CommandFormat.FormatParser.Pipe` | lib/command.c:533-559 | '\|' starts the next alternative or is refused |
| `CommandFormat.FormatParser.ScanWord` | lib/command.c:561-577 | the longest run of word characters is taken |
| `CommandFormat.FormatParser.TakeWord` | lib/command.c:561-611 | a word becomes a terminal with its description in the current vector |
| `CommandFormat.FormatParser.ParseFormat` | lib/command.c:623-672 | the dispatch loop computes the specified parse of the whole text |
| `CommandKeyword.FindKeyword` | lib/command.c:1858-1884 | the scan of the alternatives picks the best-matching unused one or reports the ambiguity |
| `CommandKeyword.PickMeans` | lib/command.c:1858-1884 | the alternative chosen fits better than every other unused one; a tie with the best so far is ambiguous, exactly; none is chosen exactly when no unused one fits |
| `CommandKeyword.PickFromSelects` | lib/command.c:1858-1884 | a word that selects one alternative picks it, and nothing once it is used |
| `CommandKeyword.MatchMultiple` | lib/command.c:1778-1832 | the first of the best-matching words wins and is completed |
| `CommandKeyword.MatchArgMeans` | lib/command.c:1778-1832 | an argument accepts a word exactly when it, or one of its choices, fits; its slot then holds the word typed, or the first best choice, completed when only abbreviated |
| `CommandKeyword.MatchArgsMeans` | lib/command.c:1910-1937 | arguments match exactly when each accepts its word and the slots are within the limit, and each one's slot then holds what its word stands for |
| `CommandKeyword.ClauseAccepted` | lib/command.c:1910-1937 | the same for a clause of a line |
| `CommandKeyword.MatchArgsBounds` | lib/command.c:1910-1937 | a successful clause uses one word and fills one slot for each argument |
| `CommandKeyword.ReadArguments` | lib/command.c:1910-1937 | the loop over a keyword's arguments matches them to the following words |
| `CommandKeyword.ReadKeywords` | lib/command.c:1834-1940 | the clause loop with its keyword mask reads a line as specified |
| `CommandKeyword.ReadCompletes` | lib/command.c:1834-1940 | a successful read uses up the line and leaves each keyword present with exactly its slots |
| `CommandKeyword.ReadClause` | lib/command.c:1834-1940 | a clause reads the same wherever it stands on the line |
| `CommandKeyword.ReadLine` | lib/command.c:1834-1940 | a line of clauses is accepted exactly when all arguments match and no keyword is repeated, with the values of its clauses |
| `CommandKeyword.PushAll` | lib/command.c:1630-1644 | arguments are pushed until CMD_ARGC_MAX is reached, and only then refused |
| `CommandKeyword.BuildKeywordArgs` | lib/command.c:1942-2014 | the argument list grows by the layout of the group, refused exactly when it would exceed CMD_ARGC_MAX |
| `CommandKeyword.LayoutLength` | lib/command.c:1942-2014 | the number of arguments depends on the group only |
| `CommandKeyword.LayoutIsFixed` | lib/command.h:399-427 | whatever was read, each alternative's values sit at the same indices, NULL when absent |
| `CommandKeyword.KeywordSlots` | lib/command.c:1942-2014 | what a readable line leaves in each alternative's slots: a keyword without arguments itself if some clause selects it, arguments what was typed for them or the best choice, and null everywhere if no clause selects it |
| `CommandKeyword.MatchKeyword` | lib/command.c:2016-2040 | matching succeeds exactly when reading does and the arguments fit; argc then depends on the group only |
| `CommandKeyword.ClauseOrderIrrelevant` | lib/command.c:1834-2040 | permuting the clauses of a line changes neither acceptance nor the argument list |
| `Hashing.PowerOfTwoTest` | lib/hash.c:34 | a positive number has no bit in common with its predecessor exactly when it is a power of two |
| `Hashing.SizeAcceptedMeans` | lib/hash.c:34 | the creation check accepts the powers of two and zero |
| `Hashing.ZeroSizeSelectsKey` | lib/hash.c:34-36 | zero is accepted, and masking with its predecessor selects for each key the chain of that number, where there is none |
| `Hashing.MaskIsRemainder` | lib/hash.c:123 | masking with size - 1 is the remainder by a power of two |
| `Hashing.HashTable.constructor` | lib/hash.c:27-45 | an empty table of every accepted size, valid unless the size is zero |
| `Hashing.HashTable.Locate` | lib/hash.c:122-131 | the search of one chain finds the stored value equal to the argument exactly when the whole table has one |
| `Hashing.Redistribute` | lib/hash.c:76-83 | every bucket of a chain moves to the chain its key selects, none is lost or doubled |
| `Hashing.HashTable.Doubled` | lib/hash.c:70-83 | a table of twice the size with the same values, each at key & (size - 1) |
| `Hashing.CountLosers` | lib/hash.c:90-104 | how many buckets overflow the threshold and whether a chain is long |
| `Hashing.HashTable.Expand` | lib/hash.c:64-108 | the size doubles, the values stay, and expansion is given up exactly when a chain stays long or more than half the values are badly placed |
| `Hashing.HashTable.Insert` | lib/hash.c:145-151 | a new value joins its chain with the count and all invariants kept |
| `Hashing.HashTable.Get` | lib/hash.c:110-154 | the stored value equal to the argument, else the allocated one, which is then stored; nothing else changes even when the table expands |
| `Hashing.HashTable.Lookup` | lib/hash.c:156-161 | the stored equal value, or none exactly when none is stored |
| `Hashing.HashTable.Release` | lib/hash.c:174-206 | the stored equal value is removed and returned; otherwise nothing changes |
| `Hashing.HashTable.Clean` | lib/hash.c:228-250 | the table is empty |
| `Hashing.Session` | lib/hash.c:64-206 | any run of get, lookup and release gives the answers and contents of an abstract collection keyed by equivalence class, with the table invariant kept |
| `PriorityQueue.SwapUp` | lib/pqueue.c:52-64 | one step of rising moves the only possible violation to the parent |
| `PriorityQueue.SwapDown` | lib/pqueue.c:81-103 | one step of sinking moves it to the smallest child |
| `PriorityQueue.PQueue.TrickleUp` | lib/pqueue.c:45-69 | rising restores heap order, permutes the elements and reports true positions |
| `PriorityQueue.PQueue.SmallerChild` | lib/pqueue.c:83-90 | the chosen child comes before its sibling |
| `PriorityQueue.PQueue.TrickleDown` | lib/pqueue.c:71-107 | sinking restores heap order, permutes the elements and reports true positions; past the end it only reports |
| `PriorityQueue.RootIsMinimum` | lib/pqueue.c:28-37 | the root of a heap comes before every element |
| `PriorityQueue.PQueue.constructor` | lib/pqueue.c:109-123 | an empty valid queue |
| `PriorityQueue.PQueue.Expand` | lib/pqueue.c:132-148 | the array doubles and keeps its elements |
| `PriorityQueue.PQueue.Enqueue` | lib/pqueue.c:150-161 | heap order is kept, the multiset grows by the element, and reported positions stay true |
| `PriorityQueue.PQueue.Dequeue` | lib/pqueue.c:163-170 | a minimum is removed and returned; the rest, heap order and reported positions are kept |
| `PriorityQueue.PQueue.RemoveAt` | lib/pqueue.c:172-187 | exactly the element at the index is removed, whether its replacement must rise or sink; heap order and reported positions are kept |
| `PriorityQueue.PQueue.Drain` | lib/pqueue.c:28-37 | dequeuing until empty yields the elements sorted |
| `PriorityQueue.Session` | lib/pqueue.c:45-187 | over any run of enqueue, dequeue and remove_at the events are lawful for a multiset, a minimum being taken each time, the queue holds that multiset in heap order, and if every element is new the last position reported for each live element is its true one |
| `Checksums.ModxIsLargest` | lib/checksum.c:50 | 4102 bytes are the most for which the worst case fits a signed 32-bit accumulator |
| `Checksums.WorstCaseIsWorst` | lib/checksum.c:80-94 | that worst case bounds every chunk from reduced accumulators and is attained |
| `Checksums.SumChunk` | lib/checksum.c:84-88 | summing a chunk never overflows and keeps both accumulators congruent to the plain sums |
| `Checksums.Sums` | lib/checksum.c:76-94 | reducing once per chunk gives the plain sums modulo 255 |
| `Checksums.XCongruent` | lib/checksum.c:97-100 | the first check byte differs from the exact value by the lost multiples of 2^32 and a multiple of 255 |
| `Checksums.CheckY` | lib/checksum.c:101-103 | the second check byte is in 1..255 and completes the first sum to a multiple of 255 |
| `Checksums.Generate` | lib/checksum.c:65-116 | the two check bytes are set for the other bytes, and only they change |
| `Checksums.Fletcher` | lib/checksum.c:56-124 | generates in place, or validates without a change and returns zero exactly when both sums are multiples of 255 |
| `Checksums.GenerateThenValidate` | lib/checksum.c:56-124 | a generated packet validates if and only if the multiples of 2^32 lost by the cast are a multiple of 255 in number, and always when (len - offset - 1) * 254 < 2^31 |
| `Checksums.LengthDecides` | lib/checksum.c:97 | every packet of a length validates once generated if and only if the distance from the check bytes to the end is safe, which below 2^32 is (len - offset - 1) * 254 < 2^31 |
| `Checksums.FailingPacket` | lib/checksum.c:97 | for every unsafe distance, a packet whose generated checksum does not validate |
| `Checksums.CastBreaksChecksum` | lib/checksum.c:97 | 8454663 bytes, zero but for a last byte of 254, fail with the check bytes in front |
| `Checksums.FoldIsOnesSum` | lib/checksum.c:43-44 | folding the carries twice is the ones' complement sum |
| `Checksums.InCksum` | lib/checksum.c:12-47 | the complement of the ones' complement sum of the words, an odd byte counting alone |
| `Checksums.StoredChecksumVerifies` | lib/checksum.c:12-47 | stored in its aligned zeroed field, the checksum makes the packet's sum all ones, so recomputing gives zero; packets up to 65536 bytes fit the accumulator |
| `Md5s.Md5.constructor` | lib/md5.c:138-147 | the initial state with nothing fed |
| `Md5s.Md5.Blocks` | lib/md5.c:161-163 | every whole block of the input is compressed in order |
| `Md5s.Md5.FillBlock` | lib/md5.c:158-159 | the buffered bytes completed by the input are compressed as one block |
| `Md5s.Md5.Loop` | lib/md5.c:149-171 | the context stands for the message extended by the input, its whole blocks compressed and its tail buffered, the count as 32-bit arithmetic gives it |
| `Md5s.Md5.Pad` | lib/md5.c:173-205 | the blocks compressed are exactly those of the message, 0x80, zeros and the 64-bit count, low byte first |
| `Md5s.PaddedBytes` | lib/md5.c:173-205 | the padded message byte by byte: the message, 0x80, zeros and the count, low byte first |
| `Md5s.OutputBytes` | lib/md5.c:207-223 | the digest byte by byte: the four words in order, each low byte first |
| `Md5s.InitialBytes` | lib/md5.c:138-147 | the initial words, byte by byte, as section 3.3 of RFC 1321 lists them |
| `Md5s.KeyBlockBytes` | lib/md5.c:318-346 | the key's block: the key, or its digest when longer than 64 bytes, then zeros |
| `Md5s.PaddedFillsBlocks` | lib/md5.c:173-205 | padding adds the least that makes whole blocks |
| `Md5s.PaddedDetermines` | lib/md5.c:190-204 | two paddings of a message agree exactly when the counts agree modulo 2^64 |
| `Md5s.CountedExactly` | lib/md5.c:154 | the padding is that of RFC 1321 if and only if the pieces' lengths wrap a multiple of 2^32 times; pieces under 2^29 bytes never wrap |
| `Md5s.CountBreaksPadding` | lib/md5.c:154 | one piece of 2^29 bytes is padded with a wrong count |
| `Md5s.DigestPieces` | lib/md5.c:138-205 | however a message is split, the digest is that of the whole with the bits counted, hence the digest of the message when the count is exact |
| `Md5s.PadKey` | lib/md5.c:345-355 | the key, padded with zeros, combined with a constant byte by byte |
| `Md5s.HmacIsRfc2104` | lib/md5.c:303-373 | below 2^29 bytes the computed value is that of section 2 of RFC 2104 |
| `Md5s.HmacMd5` | lib/md5.c:303-373 | for keys of every length, those over 64 bytes digested first, and texts of every length an int can hold |
| `Prefixes.PrefixBit` | lib/prefix.c:175-182 | bit k of an address, most significant first |
| `Prefixes.MaskedDifference` | lib/prefix.c:231-236 | masking the difference of two bytes tests the agreement of their first n bits |
| `Prefixes.AgreeByteWise` | lib/prefix.c:228-241 | agreement on n bits is agreement on whole bytes and on the odd bits of the next |
| `Prefixes.SameBits` | lib/prefix.c:228-241 | the byte loop decides agreement on the first n bits |
| `Prefixes.Match` | lib/prefix.c:216-242 | holds exactly when n is no longer than p and their first n.prefixlen bits agree |
| `Prefixes.Cmp` | lib/prefix.c:305-330 | zero exactly for one family, one length and the same network bits |
| `Prefixes.CommonBits` | lib/prefix.c:338-370 | the exact number of leading bits two addresses share, -1 across families or for an unknown one |
| `Prefixes.ContainsByCommonBits` | lib/prefix.c:216-370 | within one family containment is being no longer and sharing at least as many bits |
| `Prefixes.ContainsReflexive` | lib/prefix.c:216-242 | every prefix contains itself |
| `Prefixes.ContainsTransitive` | lib/prefix.c:216-242 | containment is transitive |
| `Prefixes.ContainsAntisymmetric` | lib/prefix.c:216-330 | mutual containment within a family is exactly a comparison of zero |
| `Prefixes.Laminar` | lib/prefix.c:216-242 | two networks that contain the same prefix are nested |
| `Prefixes.MaskedBit` | lib/prefix.c:483-489 | masking keeps the first n bits and clears the others |
| `Prefixes.SameWhenMasked` | lib/prefix.c:278-330 | masked forms are the same exactly for the same network of a known family |
| `Prefixes.MaskKeepsNetwork` | lib/prefix.c:632-649 | masking keeps the network and is idempotent |
| `Prefixes.MaskWordBytes` | lib/prefix.c:453-468 | the shifted word, put in network order, has in memory full bytes, one with the odd bits and empty bytes |
| `Prefixes.ApplyMaskIpv4` | lib/prefix.c:483-489 | the one 32-bit and with that word keeps the first n bits of the address bytes and clears the others |
| `Prefixes.ApplyMaskIpv6` | lib/prefix.c:595-616 | the odd byte and those after it are masked in place, the others kept |
| `Prefixes.ApplyMask` | lib/prefix.c:632-649 | dispatch by family; an unknown family is left alone |
| `PrefixLists.MatchesInterval` | lib/plist.c:550-576 | an entry that may be installed matches exactly the prefixes its network contains whose length lies from ge, or its own length, to le, or the longest with ge alone, or its own length |
| `PrefixLists.SamePolicyMeans` | lib/plist.c:655-658 | policies of a known family are the same exactly when all but the numbers agree |
| `PrefixLists.RewriteKeepsMeaning` | lib/plist.c:760-761 | dropping le at the maximum length when ge is given changes no match |
| `PrefixLists.RewriteNeedsGe` | lib/plist.c:760-761 | without ge it would lose exactly the longer prefixes |
| `PrefixLists.LowestMatchDecides` | lib/plist.c:578-603 | the matching entry with the lowest sequence number decides |
| `PrefixLists.NoMatchDenies` | lib/plist.c:578-603 | a prefix that no entry of a non-empty list matches is denied |
| `PrefixLists.InsertedIsProper` | lib/plist.c:480-531 | insertion of a policy no other entry has keeps numbers strictly ascending and policies distinct |
| `PrefixLists.InsertedHolds` | lib/plist.c:480-531 | insertion adds the entry, drops the one with its number and keeps every other |
| `PrefixLists.NewSeq` | lib/plist.c:388-407 | the least multiple of five above every number in use and above zero |
| `PrefixLists.NewSeqFits` | lib/plist.c:404 | it fits an int if and only if the largest number in use is below 2147483645 |
| `PrefixLists.AutomaticGoesLast` | lib/plist.c:388-407 | an automatic number never replaces an entry |
| `PrefixLists.DeletionUndoesInsertion` | lib/plist.c:448-531 | deleting an entry inserted under an unused number restores the list |
| `PrefixLists.PrefixList.NewSeqGet` | lib/plist.c:388-407 | the walk over the links computes that number |
| `PrefixLists.PrefixList.SeqCheck` | lib/plist.c:409-419 | the first entry with the number, or none |
| `PrefixLists.PrefixList.Lookup` | lib/plist.c:421-442 | the first entry with the policy and, unless negative, the number |
| `PrefixLists.PrefixList.Unlink` | lib/plist.c:455-466 | the links spell out the list without the entry in both directions, head, tail and count included |
| `PrefixLists.PrefixList.Delete` | lib/plist.c:448-466 | exactly that entry goes, and every invariant is kept |
| `PrefixLists.PrefixList.LinkBefore` | lib/plist.c:502-514 | the links spell out the list with the entry before its successor |
| `PrefixLists.PrefixList.LinkLast` | lib/plist.c:515-527 | and with the entry at the end |
| `PrefixLists.PrefixList.Add` | lib/plist.c:480-531 | the entry, numbered if need be, is inserted in its place in properly linked, ascending entries, replacing one with its number |
| `PrefixLists.PrefixList.HasDuplicate` | lib/plist.c:653-662 | the walk finds whether another entry under another number has the policy |
| `PrefixLists.PrefixList.DupCheck` | lib/plist.c:640-663 | the same for a new entry numbered as it would be |
| `PrefixLists.PrefixList.Scan` | lib/plist.c:592-600 | the walk counts the entries it visits up to the first match |
| `PrefixLists.PrefixList.Apply` | lib/plist.c:578-603 | the first match's verdict, deny without one, permit for an empty list; reference counts rise up to the match and the hit count at it only |
| `PrefixLists.Execute` | lib/plist.c:765-787 | installing with the duplicate check, or deleting, one entry |
| `PrefixLists.Session` | lib/plist.c:448-787 | every run of installs and deletions leaves a properly linked list with exact count, strictly ascending numbers, distinct policies and exactly the replayed contents |
| `PrefixLists.Set` | lib/plist.c:2508-2543 | a refused installation changes no list |
| `PrefixLists.UnsetUndoesSet` | lib/plist.c:2508-2557 | withdrawing what was set under an unused number, given, negative as an int or automatic, restores the contents and removes a list that setting created, and restores every list if and only if there was no empty, undescribed list of that name |
| `PrefixLists.ListsStayNormal` | lib/plist.c:760-761 | installation and withdrawal never leave an entry with bounds that would have been rewritten |
| `PrefixLists.UninstallFindsInstalled` | lib/plist.c:792-898 | the command-line deletion, with or without a sequence number, finds what the same words installed if and only if the bounds were not rewritten |
| `PrefixLists.UninstallMisses` | lib/plist.c:792-898 | 10.0.0.0/8 ge 16 le 32 is installed and then not found by the same words |
| `PrefixLists.FailedUnset` | lib/plist.c:2514-2551 | a failed withdrawal leaves all lists alone if and only if the list existed or the bounds were refused, and keeps the verdict on every name but that of a list it created |
| `PrefixLists.MissedUnsetPermits` | lib/plist.c:2526-2551 | a failed withdrawal from a missing list turns its verdict on every prefix from deny to permit |
| `PrefixLists.PrefixMaster.PrefixSet` | lib/plist.c:2508-2557 | the steps in place compute setting and withdrawing on the named lists |
| `LinkLists.List.LinkLast` | lib/linklist.c:112-122 | the links spell out the list with the node at the end, in both directions |
| `LinkLists.List.LinkBefore` | lib/linklist.c:98-107 | and with the node before another |
| `LinkLists.List.Add` | lib/linklist.c:56-76 | the value is appended; links and count are exact |
| `LinkLists.List.AddSort` | lib/linklist.c:83-123 | the value goes before the first it compares less than, or last, always in a new node |
| `LinkLists.InsertKeepsSorted` | lib/linklist.c:78-82 | a sorted list stays sorted, for every comparison that decides a transitive order |
| `LinkLists.List.Lookup` | lib/linklist.c:241-252 | the first node that holds the value |
| `LinkLists.List.Delete` | lib/linklist.c:171-196 | the first node that holds the value goes, or nothing changes |
| `InterfaceNames.StrcmpDecides` | lib/if.c:69-75 | name parts of different lengths: comparing the strings orders the tokens |
| `InterfaceNames.StrncmpDecides` | lib/if.c:77-88 | name parts of one length: a difference orders the tokens, otherwise the rests do |
| `InterfaceNames.NumbersDecide` | lib/if.c:95-105 | numbers order the tokens by value, up to the largest long |
| `InterfaceNames.ValueIsDecimal` | lib/if.c:95-96 | the number a run of digits stands for is its decimal value |
| `InterfaceNames.DigitsAreWorthThemselves` | lib/if.c:95-96 | each of the ten digits counts as itself |
| `InterfaceNames.CmpFunc` | lib/if.c:57-112 | the loop returns the lexicographic order of the tokens where they differ, end before characters below '0' before numbers before characters above '9' |
| `InterfaceNames.CmpMeans` | lib/if.c:48-56 | where tokens differ the comparison is antisymmetric; "less" both ways holds if and only if tokens agree and the names end in a non-digit; zero if and only if they agree and end in a digit or are empty |
| `InterfaceNames.LessBothWays` | lib/if.c:86-91 | "a1b" and "a01b" each compare less than the other |
| `InterfaceNames.CmpTransitive` | lib/if.c:48-112 | "less" is transitive without exception |
| `InterfaceNames.CmpDecides` | lib/if.c:48-112 | the comparison decides the order of tokens, so sorted insertion keeps it |
| `InterfaceNames.Create` | lib/if.c:115-131 | the list stays sorted, linked, counted and without repeated names; a known name changes nothing |
| `InterfaceNames.CreateAll` | lib/if.c:115-131 | whatever interfaces are created in whatever order, the list holds exactly their names, sorted, each once |

## Left out

- Buffers.Buffer.FlushAll: the descriptor is given a finite number of interrupts without progress,
  because the loop of the source does not end against a kernel that interrupts it for ever.
- Buffers.Buffer.FlushWindow: overflow of `height * (width + 2)` in int is not modelled.
- RouteMaps.RouteMap.IndexAdd: the clauses are a sequence, so the link pointers of the source's list
  are not captured.
- Getopt.Run: only the PERMUTE order, which an option string without a leading '+' or '-' selects
  when POSIXLY_CORRECT is not set; REQUIRE_ORDER, RETURN_IN_ORDER, the `W;` extension and error
  printing are not modelled.
- Getopt.Parser.DecodeNext: the character-level decoding of one option is a function on values.
- GetoptWritten.ReadBack: clusters of several characters when single dashes may start long names,
  which the source tries as a long name at each character, are not among the written forms.
- CommandFormat.FormatParser.ParseFormat: allocation and the completion callbacks of tokens; vectors
  are named by their path instead of by pointers.
- CommandKeyword.ReadKeywords: at most 31 alternatives, where the source's keyword bit mask is
  exact; options and variable arguments inside a keyword group are not modelled, and how well a word
  fits a command word is a parameter.
- Hashing.HashTable.Expand: the size is unbounded, wrap-around of a doubled unsigned int is not
  modelled.
- PriorityQueue.PQueue.Expand: int overflow of sizes is not modelled.
- Checksums.Fletcher: the length is at least offset + 2; for length zero the source's assertion
  `offset < len - 1` wraps and guards nothing.
- Checksums.InCksum: word sums of 2^31 and more; the host is little-endian.
- Md5s.Md5.Loop: inputs of 2^32 - 64 bytes and more, where the loop index of the source wraps;
  `md5_calc` is an arbitrary function of state and block.
- Prefixes.ApplyMaskIpv4: the host is little-endian.
- PrefixLists.NewSeq: what a number that does not fit an int turns into is not modelled.
- PrefixLists.PrefixMaster.PrefixSet: the named lists are a map, so their order by name and their
  links are not captured; parsing of the typed words and the hooks are not modelled, and hit counts
  wrap nowhere.
- LinkLists.List.Delete: freeing of memory. `listnode_add_after`, which inserts behind a given node,
  `listnode_move_to_tail`, which relinks a node at the end, and `list_delete_all_node`, which
  empties a list, are not modelled.
- InterfaceNames.Create: names are sequences of characters without the terminator; an interface
  whose name exists is allocated by the source though not listed.
- The command execution loop, vty and sockets, logging, memory accounting and SNMP, which are input
  and output.
- Key chains, distribute lists, access lists and byte streams, which store and look up configured
  values.
- jhash and string hashing, `md5_calc` rounds and mask tables: nothing to prove beyond their
  definitions.
