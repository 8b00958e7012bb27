# Verified models of the coursework repository

Dafny models of the repository's hardest algorithms and protocols, with proofs of what they are for.
`dafny verify dfyconfig.toml` checks the whole project. The module Basics holds small definitions that several models share.

| part of the repository | modules | what is shown in the end |
|---|---|---|
| red-black map (`year_I/IPP`) | Points, RedBlackTree, RedBlackMemory, RedBlackMap | every run of insertions and removals keeps linked nodes ordered and red-black and acts as a finite map |
| betweenness (`year_II/PW/zadanie2`) | Sums, WalkCounts, Dependencies, Exploration, Brandes | Brandes' theorem, and that the program computes the betweenness of every vertex |
| equation processes (`year_II/PW/zadanie3`) | Equations, CycleCheck, ProcessTree, PipeNetwork, PipeTermination | exact acceptance of acyclic systems; in every interleaving all outputs are prefixes of the solution, and every run ends with all results printed and all processes ended |
| CoAP options (`year_III/Kwiatek_JNP3`) | Bytes, CoapOptions, CoapRuns, CoapReading, CoapPdu | options added in any order are read back sorted and stable; which runs with failed additions are right; exactly the well-formed messages are accepted unless 16 bits overflow |
| snake game (`year_II/game-siktacka`) | Bytes, SnakeEvents, SnakeDatagrams, SnakeServer, SnakeClient, SnakeGame | every server log is a correct game; under loss, duplication and reordering the client shows a prefix of it |
| points and distances (`kap`) | ShortestPaths | a sparse graph keeps all shortest distances, and the queue loop finds them |
| choice of projects (`prj`) | Projects | the greedy choice is optimal |
| virus genealogy (`JNP/zadanie5`) | VirusGenealogy | every run of operations keeps a valid genealogy, and a removal takes exactly what the removed virus dominates |
| calculator (`calc`) | Calculator | late reduction gives the usual value, exactly when the tokens fit on the stack |
| decreasing subsequences (`kin`) | Inversions | k segment trees count them modulo 10^9 |
| range additions (`kre`) | Ascents | a lazy segment tree agrees with a plain array and counts its ascents exactly |
| nodes at a distance (`par`) | DistantNodes | binary lifting finds a node at exactly the wanted distance, and when it reports none wrongly |

How the models follow the code:

- Classes, arrays and loops of the source are classes, arrays and loops here, proved against functions on values.
  Nodes of the red-black map are objects with `left`, `right`, `parent` and `color` fields; ghost parameters name
  the subtree and the path to it. Where the source keeps a vector of records, DistantNodes has one array for each field.
- The pipe network is a state machine: one step is one turn of one process's loop, and any process that can
  move may move next.
- Fields of the snake game after a move, the order of chance events, checksums, the bytes of memory behind a receive buffer
  and the order of equal keys in sorted vectors are parameters, so the statements hold for all of them.
- Library containers (`std::priority_queue`, `std::set`, `std::map`) are values with the operations that their documentation promises.

Where the code differs from what its documentation or tests suggest, the code is modelled and the difference is a lemma or a contract:

- `addOption` records the largest option number even when the append then fails for lack of space; numbers appended
  later can come out wrong (`CoapRuns.FailureSpoilsRecord`; `CoapOptions.OutcomeIsRight` and `CoapRuns.RunIsRight` are
  the exact conditions for one addition and for runs).
- `addOption` counts an option only when it goes to the end; `getOptions` is complete again after `validate`.
- `validate` accepts a two-byte delta or length that overflows 16 bits (`CoapReading.OverflowIsAccepted`), and asks for
  one byte where a half byte 14 announces two.
- A snake client that misses NEW_GAME and asks for a later event stays outside of the game (`SnakeGame.CatchUp`, `SnakeGame.NextGameIsMissed`).
- The board of the snake game includes the border lines `maxx` and `maxy`: `out_of_range` uses `>`.
- `findNode` reports -1 for an ancestor above single children (`DistantNodes.ParentIsMissed`, `DistantNodes.MissingIsRight`).
- The calculator writes past its stack for deep expressions (`Calculator.LineIsEvaluated`, `Calculator.NestedLine`).
- The calculator prints a value for some unbalanced lines (`Calculator.UnbalancedIsPrinted`, `Calculator.PrintedLine`).

## Model

| member | source | states |
|---|---|---|
| Points.CompareIsTotalOrder | year_I/IPP/IPP/src/point.c:5-19 | `comparePoints` answers 0 exactly for equal points, changes sign when its arguments are swapped, is transitive, and orders by x first and then by y |
| RedBlackMap.Map.constructor | year_I/IPP/IPP/src/map.c:31-47 | a new map is valid, empty, and has a black sentinel whose child links lead to itself |
| RedBlackMap.Map.LeftRotate | year_I/IPP/IPP/src/map.c:49-73 | the exact links, parents and root after the pointer surgery; every other node is untouched |
| RedBlackMap.Map.RightRotate | year_I/IPP/IPP/src/map.c:76-100 | the mirror image of the left rotation |
| RedBlackMap.Map.LeftRotateAt | year_I/IPP/IPP/src/map.c:49-73 | in memory that holds subtree `t` anywhere in the tree, a left rotation leaves memory that holds the rotated subtree in the same place |
| RedBlackMap.Map.RightRotateAt | year_I/IPP/IPP/src/map.c:76-100 | the same for the right rotation |
| RedBlackMemory.RotatedLeft | year_I/IPP/IPP/src/map.c:49-73 | the links that a left rotation leaves are those of the rotated tree, with parents matching children throughout |
| RedBlackMemory.RotatedRight | year_I/IPP/IPP/src/map.c:76-100 | the links that a right rotation leaves are those of the rotated tree |
| RedBlackTree.RotateLeftKeepsOrder | year_I/IPP/IPP/src/map.c:49-73 | a rotation does not change the order of the nodes |
| RedBlackTree.RotateRightKeepsOrder | year_I/IPP/IPP/src/map.c:76-100 | a rotation does not change the order of the nodes |
| RedBlackTree.PlugBalanced | year_I/IPP/IPP/src/map.c:49-159 | a subtree makes the whole tree red-black exactly when its black height and root colour are the ones its surroundings accept |
| RedBlackMap.Map.InsertRound | year_I/IPP/IPP/src/map.c:302-339 | one round of the insertion loop (recolouring, inner and outer rotations, both sides) performs `InsertStep` on the linked nodes and returns the node the loop goes on with |
| RedBlackTree.InsertStepKeepsShape | year_I/IPP/IPP/src/map.c:302-339 | a round keeps all black heights equal and leaves at most one red node under a red parent, strictly nearer to the root |
| RedBlackTree.InsertStepKeepsOrder | year_I/IPP/IPP/src/map.c:302-339 | a round keeps the order of all nodes of the tree |
| RedBlackTree.RedFocusEnds | year_I/IPP/IPP/src/map.c:302-340 | once the parent is black, blackening the root gives a red-black tree |
| RedBlackMap.Map.InsertFixup | year_I/IPP/IPP/src/map.c:302-340 | the loop ends with a red-black tree in memory that has the same nodes in the same order |
| RedBlackMap.Map.GetNodeByKey | year_I/IPP/IPP/src/map.c:162-181 | returns the node that has the key; if it returns the sentinel the key is not in the map |
| RedBlackMap.Map.GetValue | year_I/IPP/IPP/src/map.c:183-192 | the value that the finite map has for the key, or none |
| RedBlackMap.Map.FindPlace | year_I/IPP/IPP/src/map.c:272-283 | for an absent key the descent ends at the one empty place with all smaller keys before it and all greater keys after it |
| RedBlackMap.Map.Hang | year_I/IPP/IPP/src/map.c:285-300 | linking a red leaf into that place gives memory that holds the old tree with the leaf in it |
| RedBlackTree.InsertedOrder | year_I/IPP/IPP/src/map.c:265-300 | putting an absent key into its place keeps the order strict and adds exactly that entry to the finite map |
| RedBlackMap.Map.InsertValue | year_I/IPP/IPP/src/map.c:265-346 | keeps the map valid (linked, ordered, red-black); an absent key is added, and inserting a present key changes nothing |
| RedBlackMap.Map.LowerRedSibling | year_I/IPP/IPP/src/map.c:106-112 | a red sibling is rotated above the parent and the new black sibling is returned |
| RedBlackMap.Map.TurnSiblingAt | year_I/IPP/IPP/src/map.c:118-123 | a sibling with only its inner child red is turned so that its outer child is red |
| RedBlackMap.Map.SupplyAt | year_I/IPP/IPP/src/map.c:124-127 | the last rotation gives the short side its black node |
| RedBlackMap.Map.DeleteRound | year_I/IPP/IPP/src/map.c:104-157 | one round of the removal loop, all cases and both sides, performs `DeleteStep` on the linked nodes |
| RedBlackTree.LowerParentKeepsShape | year_I/IPP/IPP/src/map.c:107-112 | after the first case the sibling exists and is black, and the tree is still short of exactly one black node at the focus |
| RedBlackTree.DeleteStepKeepsShape | year_I/IPP/IPP/src/map.c:113-129 | after the other cases the tree is short one black node at the parent, or repaired with the focus at the root |
| RedBlackTree.SupplyKeepsShape | year_I/IPP/IPP/src/map.c:124-128 | after the last rotation the whole tree is red-black |
| RedBlackTree.DeleteRoundKeeps | year_I/IPP/IPP/src/map.c:104-157 | a whole round keeps the order of the nodes and the shape that can be repaired, and brings the loop nearer to its end |
| RedBlackTree.ShortFocusEnds | year_I/IPP/IPP/src/map.c:104-158 | blackening a red or topmost focus ends the repair with a red-black tree |
| RedBlackMap.Map.DeleteFixup | year_I/IPP/IPP/src/map.c:102-159 | from any tree that is one black node short at `x` the loop ends with a red-black tree with the same nodes in the same order |
| RedBlackMap.Map.Transplant | year_I/IPP/IPP/src/map.c:194-207 | which links change when `v` takes the place of `u`, also when `v` is the shared sentinel, whose parent link is then set |
| RedBlackMap.Map.TreeMinimum | year_I/IPP/IPP/src/map.c:209-217 | the returned node has no left child and nothing of the subtree comes before it |
| RedBlackMap.Map.TakeOutSimple | year_I/IPP/IPP/src/map.c:229-237 | a node with an empty side is replaced by its other side, and the parent link of what moved up is right even for the sentinel |
| RedBlackMap.Map.DetachSuccessor | year_I/IPP/IPP/src/map.c:239-249 | the successor is unlinked, near or deep, and carries what is left of the right subtree |
| RedBlackMap.Map.TakeOutInner | year_I/IPP/IPP/src/map.c:239-253 | the successor takes the place, the left subtree and the colour of the removed node |
| RedBlackTree.SuccessorOrder | year_I/IPP/IPP/src/map.c:239-253 | moving the successor up takes exactly the removed node out of the order |
| RedBlackTree.SpliceSuccessor | year_I/IPP/IPP/src/map.c:239-258 | afterwards the tree is red-black, or short of one black node at the successor's old place if the successor was black |
| RedBlackMap.Map.TakeOut | year_I/IPP/IPP/src/map.c:227-255 | unlinking in any of the three cases leaves the tree without the node and ready for the repair |
| RedBlackTree.RemovedOrder | year_I/IPP/IPP/src/map.c:221-262 | the order without the node is still strict, and the finite map loses exactly its key |
| RedBlackMap.Map.RemoveValue | year_I/IPP/IPP/src/map.c:221-262 | keeps the map valid and removes exactly the key; removing an absent key changes nothing |
| RedBlackMap.Run | year_I/IPP/IPP/src/map.c:31-346 | every run of insertions and removals from the empty map stays valid and ends with the finite map that the operations build |
| RedBlackTree.RedBlackMeans | year_I/IPP/IPP/src/map.c:50-160 | a tree is red-black, as all these statements use the word, exactly when its root is not red, no red node has a red child and all ways down pass equally many black nodes |
| RedBlackTree.SearchIsLogarithmic | year_I/IPP/IPP/src/map.c:162-181 | every way down in a red-black tree of n nodes has at most 2h steps for an h with 2^h <= n + 1, so a search takes logarithmically many steps |
| WalkCounts.Distance | year_II/PW/zadanie2/main.cpp:116-135 | the distance is the length of a shortest walk, or -1 exactly when there is no walk; independent of the program |
| WalkCounts.LastEdge | year_II/PW/zadanie2/main.cpp:130-133 | walks with one more edge are counted by their last edge, which is why counters may be added up along edges |
| Exploration.ScanKeeps | year_II/PW/zadanie2/main.cpp:125-134 | looking at one edge keeps labels, counters and predecessor lists right for all edges looked at so far, duplicate edges counted |
| Exploration.LabelsAreDistances | year_II/PW/zadanie2/main.cpp:121-135 | when everything that was reached has been scanned, `d` holds the distances from the source, -1 for unreachable vertices |
| Exploration.CountersAreSigmas | year_II/PW/zadanie2/main.cpp:121-135 | `sigma` then holds the numbers of shortest walks |
| Exploration.PredecessorsAreLinks | year_II/PW/zadanie2/main.cpp:121-135 | `P[w]` then holds each vertex one step nearer as often as there are edges from it to `w` |
| Brandes.Visit | year_II/PW/zadanie2/main.cpp:126-133 | the body of the inner loop: what one edge does to labels, counters, predecessors and the queue |
| Brandes.Scan | year_II/PW/zadanie2/main.cpp:125-134 | scanning a vertex keeps the invariants and the order in which vertices enter the queue |
| Brandes.Explore | year_II/PW/zadanie2/main.cpp:109-135 | the first phase ends with everything scanned, and the stack holds exactly the reachable vertices, nearest first |
| Dependencies.ViaFactors | year_II/PW/zadanie2/main.cpp:99-149 | the shortest walks through `v` number those to `v` times their continuations |
| Dependencies.ShareSplits | year_II/PW/zadanie2/main.cpp:139-141 | the share of the shortest walks that visit `v` splits over the edges that lead one step farther |
| Dependencies.SigmaRecurrence | year_II/PW/zadanie2/main.cpp:130-132 | the number of shortest walks adds up over the vertices one step nearer to the source |
| Dependencies.DependencyRecurrence | year_II/PW/zadanie2/main.cpp:137-141 | Brandes' theorem: the sum over all targets of (shortest walks through v)/(shortest walks) obeys the recurrence that the backward pass computes |
| Dependencies.UnreachableDependency | year_II/PW/zadanie2/main.cpp:137-148 | a vertex that the backward pass never meets has dependency 0 |
| Brandes.TakenAll | year_II/PW/zadanie2/main.cpp:137-148 | when all vertices farther away have left the stack, the dependency on a vertex is complete |
| Brandes.Popped | year_II/PW/zadanie2/main.cpp:121-138 | the stack yields farthest vertices first, so whatever is one step farther has already been taken |
| Brandes.Spread | year_II/PW/zadanie2/main.cpp:139-141 | adds to each `delta[v]` exactly the contribution of `w` |
| Brandes.Accumulate | year_II/PW/zadanie2/main.cpp:137-148 | the second phase adds the exact dependency to every score except that of the source |
| Brandes.Brandes | year_II/PW/zadanie2/main.cpp:99-149 | for each vertex other than the source, the score grows by the sum over targets of the shares of shortest walks through it |
| Brandes.AllSources | year_II/PW/zadanie2/main.cpp:14-25 | with the sources in consecutive groups, one for each thread, the scores are the betweenness of every vertex |
| CoapPdu.Pdu.constructor | year_III/Kwiatek_JNP3/gateway/cantcoap.cpp:93-110 | a message with its own memory starts as the four header bytes with version 1, no options, and all records in step |
| CoapPdu.Pdu.OnBuffer | year_III/Kwiatek_JNP3/gateway/cantcoap.cpp:192-215 | a message in an external buffer starts fresh when its length is 0; otherwise the received bytes are left as they are |
| CoapPdu.Pdu.SetVersion | year_III/Kwiatek_JNP3/gateway/cantcoap.cpp:680-688 | only the two version bits change |
| CoapPdu.Pdu.ShiftPduUp | year_III/Kwiatek_JNP3/gateway/cantcoap.cpp:1330-1339 | the block arrives at the end of the message intact although source and target overlap; no other byte changes |
| CoapPdu.Pdu.ShiftPduDown | year_III/Kwiatek_JNP3/gateway/cantcoap.cpp:1349-1357 | the block arrives at the start location intact although source and target overlap; no other byte changes |
| CoapPdu.Pdu.SetOptionDelta | year_III/Kwiatek_JNP3/gateway/cantcoap.cpp:1487-1509 | writes the half byte and the extra bytes of the delta and keeps the length half of the header |
| CoapPdu.Pdu.InsertOption | year_III/Kwiatek_JNP3/gateway/cantcoap.cpp:1520-1571 | the bytes at the position become the encoding of the option, all others stay |
| CoapOptions.OptionFormat | year_III/Kwiatek_JNP3/gateway/cantcoap.cpp:1520-1571 | the encoding of an option in numbers: delta and length in half bytes up to 12, behind 13 in one more byte less 13, behind 14 in two more bytes less 269, and the value last |
| CoapOptions.OptionsInBytes | year_III/Kwiatek_JNP3/gateway/cantcoap.cpp:1520-1571 | three options as literal bytes |
| CoapPdu.Pdu.FindInsertionPosition | year_III/Kwiatek_JNP3/gateway/cantcoap.cpp:1431-1466 | the walk over the bytes stops right behind the last option whose number is not greater and reports that number; when the end is chosen from the record of the largest number, it reports the record |
| CoapPdu.Pdu.AppendOption | year_III/Kwiatek_JNP3/gateway/cantcoap.cpp:1024-1055 | when it fits, the bytes decode to the old options and one more, whose number follows from the 16-bit delta; it fails exactly when an external buffer is too small, and then the options stay; the record of the largest number changes in both cases |
| CoapPdu.Pdu.InsertBefore | year_III/Kwiatek_JNP3/gateway/cantcoap.cpp:1061-1134 | inserting before another option, with the tail shifted and the next delta rewritten, gives exactly the encoding of the list with the option at its place, or fails exactly when it does not fit and changes nothing |
| CoapPdu.SplitDelta | year_III/Kwiatek_JNP3/gateway/cantcoap.cpp:1061-1073 | splitting a delta never makes the message shorter than it was, and the next option's delta never needs more bytes than before |
| CoapOptions.EncodeInserted | year_III/Kwiatek_JNP3/gateway/cantcoap.cpp:1061-1128 | after an insertion only the new option and the delta of its successor differ in the bytes |
| CoapPdu.InsertionBytes | year_III/Kwiatek_JNP3/gateway/cantcoap.cpp:1061-1128 | the bytes before and after an insertion, and how much longer the message becomes |
| CoapPdu.Pdu.AddOption | year_III/Kwiatek_JNP3/gateway/cantcoap.cpp:1003-1134 | in every state of options and record, also those that failed additions leave behind: header and token stay, the bytes always are the encoding of an option list, which list, when it fits, and what the record of the largest number becomes on success and on failure are exact; the option count goes up only when the option goes to the end |
| CoapOptions.OutcomeIsRight | year_III/Kwiatek_JNP3/gateway/cantcoap.cpp:1024-1027 | whatever the options and the record are, an addition gives the sorted insertion if and only if the record is not consulted, or it is the last number and the option belongs to the end |
| CoapOptions.OutcomeAppended | year_III/Kwiatek_JNP3/gateway/cantcoap.cpp:1014-1055 | what 16-bit arithmetic makes of an appended number when the record is wrong |
| CoapOptions.InsertSortedStable | year_III/Kwiatek_JNP3/gateway/cantcoap.cpp:1431-1466 | a new option goes behind all options with the same number |
| CoapOptions.InsertAllIsStableSort | year_III/Kwiatek_JNP3/gateway/cantcoap.cpp:992-1003 | adding options one after the other in any order is a stable sort by number |
| CoapPdu.Pdu.AddAll | year_III/Kwiatek_JNP3/gateway/cantcoap.cpp:1003-1134 | from a message whose records are in step, any run of additions keeps header and token and holds the stable sort of what was added; it stops early only when an external buffer is full |
| CoapPdu.Pdu.AddEach | year_III/Kwiatek_JNP3/gateway/cantcoap.cpp:1003-1134 | a run of additions that goes on after failures, from any state: options, record and the additions that fitted are those of the replay on values |
| CoapRuns.RunIsRight | year_III/Kwiatek_JNP3/gateway/cantcoap.cpp:1024-1050 | over a whole run with failures in it, the message holds at every moment the sorted insertion of what fitted, if and only if no addition that fitted relied on a wrong record |
| CoapRuns.LagIsError | year_III/Kwiatek_JNP3/gateway/cantcoap.cpp:1014-1024 | an option appended from the record gets a number that is too small by the lag of the last number behind the record, modulo 2^16 |
| CoapRuns.LagAfter | year_III/Kwiatek_JNP3/gateway/cantcoap.cpp:1003-1134 | what each addition does to the lag: only a failure at the end sets it, and only an append found by the walk over the options clears it |
| CoapRuns.RecordLost | year_III/Kwiatek_JNP3/gateway/cantcoap.cpp:1024-1050 | from a sorted message whose record is right, the record is right afterwards if and only if the option fitted or its number is not greater than the record |
| CoapRuns.FailureSpoilsRecord | year_III/Kwiatek_JNP3/gateway/cantcoap.cpp:1024-1050 | a concrete run: option 2000 does not fit into four bytes, and option 11 is then stored as option 63547 |
| CoapPdu.FailureSpoilsMessage | year_III/Kwiatek_JNP3/gateway/cantcoap.cpp:1003-1134 | the same as calls on a message in a buffer of eight bytes |
| CoapOptions.ReadBack | year_III/Kwiatek_JNP3/gateway/cantcoap.cpp:1364-1422 | whatever surrounds it, an encoded option reads back as its delta, its length and its value |
| CoapReading.DecodeEncoded | year_III/Kwiatek_JNP3/gateway/cantcoap.cpp:319-419 | options that were encoded, with or without a payload and in any order of numbers, are read back exactly; in ascending order no 16-bit number overflows on the way |
| CoapReading.EncodeDecoded | year_III/Kwiatek_JNP3/gateway/cantcoap.cpp:319-419 | accepted bytes are the encoding of what was read from them if and only if no 16-bit number overflowed |
| CoapReading.AcceptedAreEncodings | year_III/Kwiatek_JNP3/gateway/cantcoap.cpp:268-422 | if no 16-bit number overflows, a message with a sound head is accepted exactly when it is a head, an option list and a payload as section 3 of RFC 7252 lays them out |
| CoapReading.OverflowIsAccepted | year_III/Kwiatek_JNP3/gateway/cantcoap.cpp:393-415 | a concrete message whose two-byte delta overflows 16 bits and is accepted although it is not an encoding |
| CoapPdu.Pdu.CheckHead | year_III/Kwiatek_JNP3/gateway/cantcoap.cpp:269-317 | accepts exactly a message of at least four bytes with a token of at most eight bytes inside it and one of the codes 0.00 to 0.04, 2.01 to 2.05, 4.00 to 4.06, 4.12, 4.13, 4.15 and 5.00 to 5.05 |
| CoapPdu.Pdu.Validate | year_III/Kwiatek_JNP3/gateway/cantcoap.cpp:268-422 | accepts exactly the acceptable messages and then records the number of options and where the payload is |
| CoapPdu.Pdu.GetOptions | year_III/Kwiatek_JNP3/gateway/cantcoap.cpp:951-990 | returns the first `numOptions` options of the message, no more than the record says |
| CoapPdu.Pdu.Recount | year_III/Kwiatek_JNP3/gateway/cantcoap.cpp:268-422 | validating a built message succeeds exactly when its code is known, and the options read after that are exactly those that were added, even where their numbers wrapped around |
| CoapPdu.BuildAndRead | year_III/Kwiatek_JNP3/gateway/cantcoap.cpp:93-110 | a new message, additions in any order, `validate` and `getOptions` together: the options read are a permutation of those added, sorted by number, with equal numbers in the order of addition |
| CoapPdu.Pdu.SetTokenLength | year_III/Kwiatek_JNP3/gateway/cantcoap.cpp:722-729 | refuses more than eight bytes and otherwise changes only the lower half of the first byte |
| CoapPdu.Pdu.SetToken | year_III/Kwiatek_JNP3/gateway/cantcoap.cpp:751-834 | a new token of the same, a greater or a smaller size replaces the old one and keeps the options; it fails exactly for an empty token or a full external buffer |
| CoapPdu.Pdu.LongerToken | year_III/Kwiatek_JNP3/gateway/cantcoap.cpp:777-810 | everything after the token moves up intact |
| CoapPdu.Pdu.ShorterToken | year_III/Kwiatek_JNP3/gateway/cantcoap.cpp:812-834 | everything after the token moves down intact |
| CycleCheck.Checker.GetThem | year_II/PW/zadanie3/graph.c:14-33 | appends the variables of an expression to one row of the table, in order, and touches nothing else |
| CycleCheck.Checker.GetNeighbours | year_II/PW/zadanie3/graph.c:35-41 | the row holds the variables of the equation, nothing when there is none |
| CycleCheck.Checker.Visit | year_II/PW/zadanie3/graph.c:44-62 | the recursive visit keeps the three colours in agreement with the search path and the finished variables, and keeps the rows of variables that are still being visited |
| CycleCheck.BackEdge | year_II/PW/zadanie3/graph.c:52-54 | an edge to a variable that is being visited closes a cycle |
| CycleCheck.ClosedHasNoCycle | year_II/PW/zadanie3/graph.c:48-61 | finished variables whose dependencies finished earlier lie on no reachable cycle |
| CycleCheck.Checker.IsCyclic | year_II/PW/zadanie3/graph.c:64-71 | true exactly when a cycle can be reached from the new left-hand side |
| CycleCheck.ExtendRank | year_II/PW/zadanie3/main.c:36-39 | a system without a cycle through the new variable can be ranked again with the new equation in it |
| CycleCheck.ReadEquations | year_II/PW/zadanie3/main.c:28-49 | accepts exactly the longest start of the input whose lines are equations for different variables without a cyclic dependency; the accepted system is ranked |
| CycleCheck.GoodUpTo | year_II/PW/zadanie3/main.c:28-49 | a good list has only good starts, so refusing early never refuses a good list |
| Equations.RankedIsAcyclic | year_II/PW/zadanie3/graph.c:44-62 | a ranked system has no cycle of dependencies |
| Equations.SolutionExists | year_II/PW/zadanie3/communication.c:116-300 | an accepted system has values for all variables in every round, where an initial value overrides an equation and a missing input gives no value |
| Equations.SolutionIsUnique | year_II/PW/zadanie3/communication.c:116-300 | these values are the only ones |
| Equations.EvalLaws | year_II/PW/zadanie3/communication.c:146-300 | evaluation obeys the laws of arithmetic: neutral elements, inverses, commutativity, associativity and distributivity, and adding one adds one |
| Equations.EvalOfValues | year_II/PW/zadanie3/communication.c:246-300 | sum, product and negation of values, and no value as soon as a part has none |
| ProcessTree.LeftWrites | year_II/PW/zadanie3/communication.c:207-228 | a variable with an equation writes a round exactly when both of its messages are there, and what it writes is its value in that round |
| ProcessTree.OtherWrites | year_II/PW/zadanie3/communication.c:230-240 | a variable without an equation answers each initial value with its value in that round |
| ProcessTree.VarActs | year_II/PW/zadanie3/communication.c:176-245 | one turn of a variable process keeps its output a prefix of the variable's values and its buffers in agreement with what it has read |
| ProcessTree.OwnAct | year_II/PW/zadanie3/communication.c:146-300 | a turn of any kind of process keeps its output a prefix of the values of its expression and passes END on |
| ProcessTree.StepKeeps | year_II/PW/zadanie3/communication.c:302-334 | a step of any process in the tree of an expression keeps the outputs of all of them right |
| ProcessTree.QuietHasWritten | year_II/PW/zadanie3/communication.c:146-300 | when all processes of an expression wait, they have written every round that their pipes were fed |
| PipeNetwork.InvStart | year_II/PW/zadanie3/communication.c:336-374 | the network starts in a state that satisfies the invariant |
| PipeNetwork.PassMayWrite | year_II/PW/zadanie3/communication.c:336-362 | a forwarding process only ever writes the next result that is due in that pipe |
| PipeNetwork.Barrier | year_II/PW/zadanie3/main.c:70-95 | because main waits for the result of a round before it starts the next, no result with variables in it is more than a round ahead of any pipe's initial values |
| PipeNetwork.MainWriteKeeps | year_II/PW/zadanie3/communication.c:116-132 | writing the initial values pipe by pipe keeps the invariant |
| PipeNetwork.MainReadKeeps | year_II/PW/zadanie3/main.c:76-94 | reading a result keeps the invariant, and what is printed is the value of x[0] in that round |
| PipeNetwork.MainEndKeeps | year_II/PW/zadanie3/communication.c:375-382 | ending the processes keeps the invariant |
| PipeNetwork.NextKeeps | year_II/PW/zadanie3/communication.c:116-382 | every step of any process keeps the invariant |
| PipeNetwork.RunIsRight | year_II/PW/zadanie3/main.c:57-101 | in every interleaving, every process of every expression has written a prefix of the values of its part of the expression, and the printed results are the values of x[0] in their rounds, none when x[0] has no equation, whether or not it has an initial value |
| PipeNetwork.PipeHistory | year_II/PW/zadanie3/communication.c:116-132 | in any interleaving, every pipe holds initial values of its variable and results of its equation, numbered from round 1 on |
| PipeNetwork.PrintedResult | year_II/PW/zadanie3/main.c:76-94 | in any interleaving, for x[0] = x[i] + x[j], x[0] = x[i] * x[j] or x[0] = -x[i] with initial values for x[i] and x[j], what is printed is their sum, their product or the negative, and an initial value of x[0] itself instead of all of them |
| PipeNetwork.NothingPrinted | year_II/PW/zadanie3/main.c:86-89 | and no value is printed when one of them has neither an initial value nor an equation |
| PipeNetwork.NeverStuck | year_II/PW/zadanie3/main.c:57-101 | until all rounds are printed some process of an accepted system can make a step |
| PipeTermination.GoesOn | year_II/PW/zadanie3/main.c:57-107 | until all rounds are printed and every process has ended, some process of an accepted system can make a step |
| PipeTermination.NextWorks | year_II/PW/zadanie3/communication.c:116-382 | every step of any process uses up work, of which there is only a finite amount |
| PipeTermination.EveryRunFinishes | year_II/PW/zadanie3/main.c:57-107 | no interleaving of an accepted system goes on for ever, and one that cannot be continued has printed the value of x[0] in every round and has ended all processes, so that the final loop of main ends |
| PipeNetwork.SetupExists | year_II/PW/zadanie3/main.c:28-95 | every accepted system has a solution in each round of any initial values |
| PipeNetwork.PlanExists | year_II/PW/zadanie3/communication.c:336-374 | every accepted system has, for any initial values, a plan of pipes and a starting state that all these statements are about |
| PipeNetwork.WithoutBarrier | year_II/PW/zadanie3/communication.c:216-226 | a concrete history, possible only without the barrier, in which a variable writes two rounds at once and a wrong value |
| SnakeEvents.U32Back | year_II/game-siktacka/event.cc:32-34 | four bytes, most significant first, read back as the number |
| SnakeEvents.Serialize | year_II/game-siktacka/event.cc:25-42 | writes length, number, type, data and checksum of an event and nothing else; length, number and coordinates most significant byte first, the type as 0 for NEW_GAME, 1 for PIXEL, 2 for PLAYER_ELIMINATED and 3 for GAME_OVER |
| SnakeEvents.WireFormat | year_II/game-siktacka/event.cc:25-42 | all numbers in the bytes of an event, the checksum and the board size included, by their positions |
| SnakeEvents.NamesFormat | year_II/game-siktacka/event.cc:128-134 | the names of a new game follow each other, each with a zero byte behind it |
| SnakeEvents.NewGameInBytes | year_II/game-siktacka/event.cc:25-42 | a NEW_GAME event as literal bytes |
| SnakeDatagrams.DatagramInBytes | year_II/game-siktacka/communicate.cc:189-222 | a datagram with two events as literal bytes |
| SnakeDatagrams.LoadNames | year_II/game-siktacka/event.cc:154-175 | valid names that were serialized are read back in order |
| SnakeDatagrams.LoadData | year_II/game-siktacka/event.cc:154-304 | data that was serialized is read back, player names apart |
| SnakeDatagrams.LoadEvent | year_II/game-siktacka/event.cc:52-92 | an event that was serialized is read back, player names apart, and its length field is the one that skips it |
| SnakeDatagrams.Load | year_II/game-siktacka/communicate.cc:225-253 | a datagram of whole serialized events is read back as exactly these events, player names apart |
| SnakeDatagrams.Sender.SendMessage | year_II/game-siktacka/communicate.cc:189-222 | terminates; it succeeds exactly when every event from number n on fits into a datagram by itself; each datagram then starts with the game number, has at most 512 bytes and at least one event, and together they hold the events from n on, in order |
| SnakeServer.Extended | year_II/game-siktacka/siktacka-server.cc:382-401 | a log goes on correctly with an event of a player that is still in the game on a free field of the board, and ends with GAME_OVER |
| SnakeServer.GameState.CheckPlayerPosition | year_II/game-siktacka/siktacka-server.cc:291-322 | a snake on a free field from (0, 0) to (maxx, maxy), borders included, takes it with a PIXEL event; on any other field it is eliminated; exactly this one event is added |
| SnakeServer.GameState.Tick | year_II/game-siktacka/siktacka-server.cc:273-289 | each snake that plays and comes to another field has exactly one event, in the order of the table: PIXEL if the field is on the board and free at that moment, and otherwise PLAYER_ELIMINATED; snakes that stay have none; the game goes on exactly when two still play, and else one GAME_OVER follows |
| SnakeServer.GameState.TryEnd | year_II/game-siktacka/siktacka-server.cc:324-334 | the game ends exactly when at most one snake is left, and otherwise nothing changes |
| SnakeServer.GameState.GameOverEvent | year_II/game-siktacka/siktacka-server.cc:453-475 | exactly the players that are gone leave, the others stay in their order, none of them playing or ready, and the log ends with one GAME_OVER |
| SnakeServer.GameState.EnsureGameEventSize | year_II/game-siktacka/siktacka-server.cc:365-379 | clients leave one by one as chance has it until the first event of the game fits into a datagram, and no longer |
| SnakeServer.AbsoluteSizeIs | year_II/game-siktacka/siktacka-server.cc:365-379 | the size that is compared is that of a datagram with the NEW_GAME event alone |
| SnakeServer.FewNames | year_II/game-siktacka/siktacka-server.cc:413-425 | names that fit into the first event are fewer than 256, so the 8-bit player number never wraps |
| SnakeServer.NamedPlayers | year_II/game-siktacka/siktacka-server.cc:403-411 | the names in NEW_GAME are those of the players that have one, in the order of the table |
| SnakeServer.GameState.NumberPlayers | year_II/game-siktacka/siktacka-server.cc:413-431 | a new game has a new log whose first event names all players with a name; exactly these play, and each number leads to its player's name |
| SnakeServer.GameState.StartGame | year_II/game-siktacka/siktacka-server.cc:433-451 | a started game is NEW_GAME followed by one event for each snake on its start field, in order: PIXEL if the field is on the board and free, and otherwise PLAYER_ELIMINATED |
| SnakeServer.GameState.TryStart | year_II/game-siktacka/siktacka-server.cc:340-362 | a game starts exactly when at least two players have names and all of these are ready, and then with those who were not sent away |
| SnakeServer.Serve | year_II/game-siktacka/siktacka-server.cc:257-494 | after every step of any run of the server the log is that of one game (numbers equal to positions, NEW_GAME first, pixels distinct and on the board, nothing after an elimination for that player, at most one GAME_OVER and that last) and it only grows until a new game starts |
| SnakeClient.PushKeepsOrder | year_II/game-siktacka/siktacka-client.cc:174 | the queue of events stays ordered by number |
| SnakeClient.Client.HandleEvent | year_II/game-siktacka/siktacka-client.cc:157-182 | an event that is there already changes nothing, a new one is stored once; NEW_GAME of another game starts over and any other event of another game is ignored |
| SnakeClient.Client.HandleIncomingDataServer | year_II/game-siktacka/siktacka-client.cc:152-185 | after a message the client has exactly the events that it had and those of the message, and `last_event` is the least number that is missing |
| SnakeClient.Client.GuiCommunicate | year_II/game-siktacka/siktacka-client.cc:201-209 | hands over one more event, the next of the log that is not GAME_OVER |
| SnakeClient.Client.TopIsNext | year_II/game-siktacka/siktacka-client.cc:147-150 | when there is data for the user interface it is the next event of the log that may be shown; otherwise nothing was left out before the first gap |
| SnakeClient.Client.AllShown | year_II/game-siktacka/siktacka-client.cc:147-150 | when nothing is left to show, everything before the first gap was shown |
| SnakeClient.Play | year_II/game-siktacka/siktacka-client.cc:147-209 | whatever datagrams of a game arrive, in any order and any number of times, what was shown is a prefix of the log without GAME_OVER, each event once and in order |
| SnakeGame.LogFits | year_II/game-siktacka/communicate.cc:203-208 | every event of a game fits into a datagram, so sending never fails |
| SnakeGame.VisibleIs | year_II/game-siktacka/siktacka-client.cc:147-150 | what the user interface is told of is the whole log but the GAME_OVER at its end |
| SnakeGame.Answer | year_II/game-siktacka/communicate.cc:189-222 | an answer at any length of the log holds exactly the requested rest, in datagrams that each hold events in a row |
| SnakeGame.Session | year_II/game-siktacka/siktacka-client.cc:147-209 | with answers of the server at any lengths of its growing log and any of their datagrams arriving at any time and any number of times, the client shows a prefix of the log without GAME_OVER and knows the least missing event |
| SnakeGame.CatchUp | year_II/game-siktacka/siktacka-client.cc:135-145 | one request answered without loss brings a client up to date exactly when it is in the game already or asks from the start; otherwise it stays in the game it was in |
| SnakeGame.NextGameIsMissed | year_II/game-siktacka/siktacka-client.cc:135-145 | calls that show the failing case: for any two games, a client brought up to date in the first asks for the second in vain |
| SnakeServer.ServeStep | year_II/game-siktacka/siktacka-server.cc:257-289 | what a step of a client or of the clock does: a newcomer waits and no event is made, a departure or a turn in a running game makes no event, and a round is exactly that of the game |
| SnakeServer.GameState.SetTurnDirection | year_II/game-siktacka/siktacka-server.cc:477-490 | a player with a name becomes ready with its first turn and nobody else changes |
| SnakeServer.GameState.AssignNumbers | year_II/game-siktacka/siktacka-server.cc:420-425 | exactly the players with names play, under different numbers that lead to their names |
| ShortestPaths.Along | year_II/Algorithms_and_data_structures/kap/kap.cpp:50-65 | along one sorted order the steps cost no more together than the difference of the coordinates |
| ShortestPaths.NoLonger | year_II/Algorithms_and_data_structures/kap/kap.cpp:47-65 | every walk of the complete graph has one in the program's graph that is no longer |
| ShortestPaths.SameDistances | year_II/Algorithms_and_data_structures/kap/kap.cpp:47-65 | joining only neighbours by x and by y keeps the shortest distance between every two points |
| ShortestPaths.BuildGraph | year_II/Algorithms_and_data_structures/kap/kap.cpp:50-65 | the adjacency sets hold exactly the neighbours in both orders, with the costs that `make_edge` gives |
| ShortestPaths.RelaxEdge | year_II/Algorithms_and_data_structures/kap/kap.cpp:86-96 | a shorter way is stored and queued again; distances stay lengths of walks, and every node with unfinished steps stays queued |
| ShortestPaths.NoneShorter | year_II/Algorithms_and_data_structures/kap/kap.cpp:77-97 | when nothing is queued, no walk is shorter than the distance that was found |
| ShortestPaths.RunQueue | year_II/Algorithms_and_data_structures/kap/kap.cpp:77-97 | the loop over the queue, which skips stale entries, ends, and then every step has been considered |
| ShortestPaths.Distances | year_II/Algorithms_and_data_structures/kap/kap.cpp:19-99 | for coordinates below the start value, all distances from node 1 are the shortest ones of the complete graph with costs min(abs dx, abs dy) |
| ShortestPaths.CostIsSmaller | year_II/Algorithms_and_data_structures/kap/kap.cpp:19-27 | a step costs the smaller of the absolute coordinate differences, stated by squares; the same in both directions, and nothing exactly between points that share a coordinate |
| ShortestPaths.ShortestIsSymmetric | year_II/Algorithms_and_data_structures/kap/kap.cpp:19-27 | shortest distances are the same in both directions |
| ShortestPaths.FallingPoints | year_II/Algorithms_and_data_structures/kap/kap.cpp:19-27 | two concrete points, the second to the lower left of the first, are five apart |
| Projects.Tables | year_II/Algorithms_and_data_structures/prj/prj.cpp:15-28 | the counters are the numbers of open dependencies, and each project's list names its dependents once for each edge |
| Projects.Finish | year_II/Algorithms_and_data_structures/prj/prj.cpp:43-47 | after a project is done exactly the projects that waited for it alone join the queue |
| Projects.NowAvailable | year_II/Algorithms_and_data_structures/prj/prj.cpp:43-47 | which projects become available when one is done, in both directions |
| Projects.TakeEasiest | year_II/Algorithms_and_data_structures/prj/prj.cpp:39-49 | taking the easiest available project is never worse than any dependency-closed choice of as many projects |
| Projects.Select | year_II/Algorithms_and_data_structures/prj/prj.cpp:10-53 | the result is the least bound on the needs of k projects, over all dependency-closed sets of k projects of an acyclic plan with nonnegative needs |
| VirusGenealogy.Genealogy.constructor | year_II/JNP/zadanie5/virus_genealogy.h:43-47 | a genealogy with the stem alone is valid |
| VirusGenealogy.Genealogy.Create | year_II/JNP/zadanie5/virus_genealogy.h:107-136 | which outcome for which arguments; a failure changes nothing, a success adds the virus with exactly the given parents |
| VirusGenealogy.Genealogy.Connect | year_II/JNP/zadanie5/virus_genealogy.h:139-155 | parent and child sets change on both sides, or nothing changes when one of the two is unknown; a valid genealogy stays valid if and only if the child is not the stem and no line leads from it to the parent |
| VirusGenealogy.ConnectKeepsValid | year_II/JNP/zadanie5/virus_genealogy.h:139-155 | a connection that makes no cycle and gives the stem no parent keeps parent and child sets inverse and everything reachable |
| VirusGenealogy.ConnectIsRight | year_II/JNP/zadanie5/virus_genealogy.h:139-155 | and no other connection leaves a valid genealogy: a cycle or a parent of the stem cannot be ranked |
| VirusGenealogy.Genealogy.RemoveNode | year_II/JNP/zadanie5/virus_genealogy.h:166-182 | the recursive removal terminates, also with nodes half removed above it, and takes out the virus and whatever lost its last parent |
| VirusGenealogy.Genealogy.DropLink | year_II/JNP/zadanie5/virus_genealogy.h:173-180 | one round of the loop over the children, recursion included |
| VirusGenealogy.GoneAreDominated | year_II/JNP/zadanie5/virus_genealogy.h:157-183 | a virus goes exactly when all its lines of descent from the stem pass through the removed one |
| VirusGenealogy.CascadeKeepsValid | year_II/JNP/zadanie5/virus_genealogy.h:157-183 | what is left is a valid genealogy |
| VirusGenealogy.Genealogy.Remove | year_II/JNP/zadanie5/virus_genealogy.h:157-183 | the outcome for each argument; a success keeps the genealogy valid and removes exactly the viruses all of whose lines from the stem pass through the given one |
| VirusGenealogy.AllDescend | year_II/JNP/zadanie5/virus_genealogy.h:102-183 | every virus of a valid genealogy descends from the stem |
| VirusGenealogy.Perform | year_II/JNP/zadanie5/virus_genealogy.h:102-183 | each operation acts on the family of viruses and parents as its definition without links and recursion says, and keeps the genealogy valid |
| VirusGenealogy.Run | year_II/JNP/zadanie5/virus_genealogy.h:43-183 | every run of creations, connections and removals from the stem on, in which no connection makes a cycle or gives the stem a parent, ends in a valid genealogy with the family that the definitions give |
| Calculator.DoIt | year_III/Security_computer_systems/zal1/calc/calc.c:45-123 | the loop over the stack arrays behaves as the character-by-character machine, including malformed input and a full stack |
| Calculator.ReduceFactors | year_III/Security_computer_systems/zal1/calc/calc.c:83-86 | multiplying pending factors from the right gives the product from the left |
| Calculator.ReduceSummands | year_III/Security_computer_systems/zal1/calc/calc.c:94-97 | adding pending summands from the right gives the sum |
| Calculator.ReadNumber | year_III/Security_computer_systems/zal1/calc/calc.c:67-75 | the digits of a number push its decimal value |
| Calculator.ReadSum | year_III/Security_computer_systems/zal1/calc/calc.c:50-117 | reading an expression that fits leaves its summands and last factors on the stack, above what was there before |
| Calculator.CloseSum | year_III/Security_computer_systems/zal1/calc/calc.c:100-107 | a right parenthesis leaves the value of the expression inside |
| Calculator.SumTooDeep | year_III/Security_computer_systems/zal1/calc/calc.c:46-80 | an expression that needs too many slots writes past the end of the stack |
| Calculator.LineIsEvaluated | year_III/Security_computer_systems/zal1/calc/calc.c:45-114 | for every expression of numbers, +, * and parentheses, with spaces anywhere, the usual value is printed if and only if the tokens fit into the 32 slots |
| Calculator.NestedLine | year_III/Security_computer_systems/zal1/calc/calc.c:45-114 | concrete lines: a digit in up to thirty pairs of parentheses is printed, in one more pair it is written behind the stack |
| Calculator.SampleLine | year_III/Security_computer_systems/zal1/calc/calc.c:45-114 | 12+30*(4+9) prints 402 |
| Calculator.PrintedLine | year_III/Security_computer_systems/zal1/calc/calc.c:45-114 | for any line that is printed, well formed or not: it holds digits, operators, parentheses and spaces only, and it is balanced if and only if no right parenthesis and not the end of the line finds a left parenthesis where a number should be |
| Calculator.ProperIsBalanced | year_III/Security_computer_systems/zal1/calc/calc.c:45-114 | so a printed line in which operators, right parentheses and the end come after numbers is balanced |
| Calculator.UnbalancedIsPrinted | year_III/Security_computer_systems/zal1/calc/calc.c:100-113 | two concrete lines that are printed although a right parenthesis is missing |
| Inversions.SumOfParents | year_II/Algorithms_and_data_structures/kin/kin.cpp:35-45 | a row of parents has the same sum, modulo 10^9, as their children |
| Inversions.SegmentTree.NextPow | year_II/Algorithms_and_data_structures/kin/kin.cpp:19-28 | the least power of two above n |
| Inversions.SegmentTree.SumRange | year_II/Algorithms_and_data_structures/kin/kin.cpp:35-45 | the bottom-up loop gives the sum of the range modulo 10^9, 0 for an empty or negative one |
| Inversions.SegmentTree.Insert | year_II/Algorithms_and_data_structures/kin/kin.cpp:47-52 | replaces one value and keeps every inner node the sum of its children; outside of the range nothing changes |
| Inversions.ChainsAreDecreasing | year_II/Algorithms_and_data_structures/kin/kin.cpp:65-73 | the counted set is exactly the set of index sequences of the given length with decreasing values that end above a value |
| Inversions.RowSum | year_II/Algorithms_and_data_structures/kin/kin.cpp:69-72 | the stored counts above a value add up, modulo 10^9, to the number of subsequences that end above it |
| Inversions.AddValue | year_II/Algorithms_and_data_structures/kin/kin.cpp:65-73 | one round of the outer loop brings all k trees from m values to m + 1 |
| Inversions.CountDecreasing | year_II/Algorithms_and_data_structures/kin/kin.cpp:55-75 | for every permutation and every k from 1 on, the result is less than 1000000000 and differs from the number of decreasing subsequences of length k by a multiple of it; smaller numbers are exact |
| Ascents.PushKeeps | year_II/Algorithms_and_data_structures/kre/segment_tree.h:56-66 | pushing a pending addition one level down changes no value and no bound, and touches nothing outside of the subtree |
| Ascents.SegmentTree.UpdateTree | year_II/Algorithms_and_data_structures/kre/segment_tree.h:68-85 | adds to exactly the positions of the range below a node, keeps all bounds right and leaves other subtrees alone |
| Ascents.SegmentTree.QueryTreeMax | year_II/Algorithms_and_data_structures/kre/segment_tree.h:87-99 | the greatest value of the range below a node; the pushing on the way changes no value |
| Ascents.SegmentTree.QueryTreeMin | year_II/Algorithms_and_data_structures/kre/segment_tree.h:101-113 | the least value of the range below a node |
| Ascents.SegmentTree.constructor | year_II/Algorithms_and_data_structures/kre/segment_tree.h:120-133 | the tree holds the given nonempty array and the number of its ascents |
| Ascents.PathValue | year_II/Algorithms_and_data_structures/kre/segment_tree.h:154-160 | a value is its leaf with all that is still pending on the path to the root |
| Ascents.SegmentTree.GetValue | year_II/Algorithms_and_data_structures/kre/segment_tree.h:154-160 | walking up from the leaf without pushing gives the value of the plain array |
| Ascents.SegmentTree.GetMax | year_II/Algorithms_and_data_structures/kre/segment_tree.h:162-164 | the greatest value of the range of the plain array, -INF for an empty range |
| Ascents.SegmentTree.GetMin | year_II/Algorithms_and_data_structures/kre/segment_tree.h:166-168 | the least value of the range of the plain array, INF for an empty range |
| Ascents.SegmentTree.AddToRange | year_II/Algorithms_and_data_structures/kre/segment_tree.h:150-152 | the plain array under range addition |
| Ascents.SegmentTree.UpdateIncrease | year_II/Algorithms_and_data_structures/kre/segment_tree.h:41-54 | one mark and the counter are brought in line with the values; positions without a predecessor are ignored |
| Ascents.MarkedAgain | year_II/Algorithms_and_data_structures/kre/segment_tree.h:142-145 | after a range addition only the marks at the two ends can be wrong |
| Ascents.CountIsAscents | year_II/Algorithms_and_data_structures/kre/segment_tree.h:132-147 | the number of marks is the number of positions whose value is above the one before |
| Ascents.SegmentTree.QueryRange | year_II/Algorithms_and_data_structures/kre/segment_tree.h:135-148 | a call is rejected exactly when a value of the range would leave 0 to 2000000000, and then the array is unchanged; an accepted call adds to the range, keeps all values within these limits and returns the exact number of ascents |
| DistantNodes.FirstMeetIsDistance | year_II/Algorithms_and_data_structures/par/par.cpp:70-86 | the length of a shortest walk between two nodes is where their climbs to the root first meet |
| DistantNodes.Nodes.VisitHeights | year_II/Algorithms_and_data_structures/par/par.cpp:108-118 | the walk with children first gives every node below its height and its highest child |
| DistantNodes.Nodes.VisitPositions | year_II/Algorithms_and_data_structures/par/par.cpp:120-123 | the walk with parents first gives every node below its depth |
| DistantNodes.Nodes.VisitTurns | year_II/Algorithms_and_data_structures/par/par.cpp:125-145 | the third walk gives every node below its best turn |
| DistantNodes.TurnIsBest | year_II/Algorithms_and_data_structures/par/par.cpp:125-145 | no brother of an ancestor allows a longer path than the stored turn |
| DistantNodes.Nodes.SetupLinks | year_II/Algorithms_and_data_structures/par/par.cpp:148-160 | link i of a node leads 2^i steps up or down, -1 when there are not that many |
| DistantNodes.GoDirection | year_II/Algorithms_and_data_structures/par/par.cpp:45-58 | following links by the binary digits of d makes exactly d steps |
| DistantNodes.Build | year_II/Algorithms_and_data_structures/par/par.cpp:163-186 | reading the children of all nodes of a rooted binary tree leaves heights, depths, turns and links that belong to that tree |
| DistantNodes.DownReaches | year_II/Algorithms_and_data_structures/par/par.cpp:65-72 | going down along highest children reaches a descendant at every distance up to the height |
| DistantNodes.FoundIsRight | year_II/Algorithms_and_data_structures/par/par.cpp:70-86 | a node that is found is at the wanted distance, and one is found exactly up to the reach of the start |
| DistantNodes.NothingBeyond | year_II/Algorithms_and_data_structures/par/par.cpp:70-86 | beyond the reach there are only ancestors, each at its own distance |
| DistantNodes.MissingIsRight | year_II/Algorithms_and_data_structures/par/par.cpp:70-86 | the answer -1 is right if and only if the distance is within reach or leads above the root |
| DistantNodes.FullReaches | year_II/Algorithms_and_data_structures/par/par.cpp:125-145 | when every node has two children or none, every distance up to the root is within reach |
| DistantNodes.ParentIsMissed | year_II/Algorithms_and_data_structures/par/par.cpp:73-74 | a concrete tree with a single child whose parent, at distance 1, is not found |
| DistantNodes.Nodes.FindNode | year_II/Algorithms_and_data_structures/par/par.cpp:188-190 | a returned node is at distance exactly d; when every node has two children or none, -1 is returned exactly when no node is at that distance |

## Left out

- CoapPdu.Pdu.AddOption: does not model values longer than 65530 bytes, for which the 16-bit option length wraps; nor options added after a payload or to a parsed message.
- CoapPdu.Pdu.AddAll: requires sorted options and a right record at the start, as in a new message; `CoapPdu.Pdu.AddEach` is about every other state.
- CoapPdu.Pdu.SetToken: does not model messages of 256 bytes or more, whose length the program keeps in 8 bits; for a token of more than 8 bytes only the outcome is stated, since the token length cannot record it.
- CoapPdu.Pdu.Recount: is about built messages, which have no payload.
- SnakeServer.Serve: stops before the 32-bit event numbers would overflow; clients are places in the player table instead of addresses and timeouts.
- SnakeClient.Play: datagrams of older games that arrive late are not modelled; they would start the older game over.
- SnakeDatagrams.Load: says nothing about datagrams that no server of this program sends.
- Brandes.AllSources: takes exact real numbers instead of `double`, and atomic additions instead of threads and mutexes.
- Calculator.LineIsEvaluated: takes unbounded integers instead of `int`; for other lines that are printed, `Calculator.PrintedLine` is about their parentheses, not the value.
- PipeNetwork.RunIsRight: takes unbounded integers instead of `long`, pipes without a capacity, and lets a binary process read both of its children in one step.
- PipeTermination.EveryRunFinishes: takes every pipe as open until its END, while main closes its end of the pipe from x[0] first; does not model the fixed sizes of the buffers for rounds, pipes and text lines.
- CycleCheck.ReadEquations: takes parsed lines; variable numbers and occurrences fit into the tables, as the parser's limits promise.
- Projects.Select: takes nonnegative needs and an acyclic dependency graph, as the problem gives them; `k` is at most the number of projects.
- VirusGenealogy.Genealogy.Remove: takes a genealogy without cycles, which `connect` leaves to its callers (`VirusGenealogy.ConnectIsRight`); exceptions of allocations are not modelled.
- ShortestPaths.Distances: takes the two sorted orders as given instead of `std::sort`.
- Inversions.CountDecreasing: takes a permutation, as the problem gives it.
- Ascents.SegmentTree.QueryRange: takes values between -INF and INF and a range inside of the array; the 64-bit sums and the rounding of `log2` are exact here.
- DistantNodes.Nodes.FindNode: takes a tree of depth below 2^19, which the link tables can cover.
- RedBlackMap.Map.InsertValue: does not model the failure of `malloc`, nor which key and value are freed.
- `do_map`, `read_input` and printing in `zadanie2`, parsing and printing everywhere: input and output.
- Sockets, poll loops, timers, processes and signals: replaced by steps in any order.
- `crc32.c`: the checksum is an arbitrary function in the event protocol.
- Headers, codes, URIs and content formats of CoAP messages: fixed fields without interplay with the options.
- `tan.cpp`, `mal.cpp`, `exam/hard.cpp`, `schedule.c`: further algorithms of the kinds already shown.
- Web applications, user interfaces, migrations and security exercises: outside of what a model would clarify.
