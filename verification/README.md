# Trees and a capped log

This project models two parts of the repository and proves what they are for.

**The trees of `009/include/uv/tree.h`.** `RbTree.Head` and `SplayTree.Head` are classes whose methods
assign the link fields of the elements one by one, as the macros do. The elements (`Elements.Node`) are
intrusive: an element object *is* the tree node, and the results speak about the objects, not about copies
of keys. In the background a tree value (`RbModel.Tree`, `SplayModel.Tree`) says what the links spell out
(`Has`), and the methods are proved against it:

- red-black fix-ups work on a subtree in its context (`Ctx`, a zipper). The loop of insertion keeps "one red
  node may have a red parent" (`RedRed`), the loop of removal "one black node is missing here"
  (`LacksBlack`), the node there being possibly null;
- a splay keeps two spines under a dummy node and a middle (`Torn`), whose orders always concatenate to the
  original sequence; the finished tree is a function of the old one and the key (`SplayOrder.TopDown`).

Both trees are then shown to answer like one abstract type, a finite map from keys to elements
(`OrderedMap`), over every run of operations.

**The logger of `002/log.cpp`.** `Logger.Logger` is the logger with its variables as fields. `LogMachine`
interleaves any number of threads, one library or system call at a time, with arbitrary outcomes of these
calls. It is shown to be serializable, which carries the results about whole calls over to every
interleaving: every record that passes the level test is written exactly once or finds the log closed
(`LogRequests`), the log is a suffix of what was written (`LogSuffix`), a trim keeps at least half of it exactly
under a condition on its calls (`LogLoss`), and its size comes within a bound and stays there (`LogBound`).

| file | contents |
|---|---|
| `Elements.dfy`, `Arith.dfy` | elements, ascending sequences, numbers |
| `OrderedMap.dfy` | the abstract ordered map and its runs |
| `RbModel.dfy`, `RbSurgery.dfy` | red-black trees as values, contexts, what pointer assignments do to them |
| `RbBalance.dfy`, `RbSearch.dfy` | the cases of the fix-up loops; descent, height, neighbours, successor |
| `RbTree.dfy`, `RbIterate.dfy`, `RbRuns.dfy` | the red-black tree class; iteration; runs |
| `SplayModel.dfy`, `SplayOrder.dfy` | splay trees and spines as values; order and path length |
| `SplayTree.dfy`, `SplayRuns.dfy` | the splay tree class; iteration and runs |
| `LogModel.dfy` | one call of the logger, as steps and as a whole |
| `LogMachine.dfy`, `LogSuffix.dfy`, `LogLoss.dfy` | all interleavings; what the log holds; what a trim can lose |
| `LogRequests.dfy` | which records reach the log, over all interleavings |
| `LogSize.dfy`, `LogBound.dfy` | when the size is checked and the maximum exceeded; the bound that holds |
| `LogStatus.dfy`, `Logger.dfy` | programs that log and set up the log, with the whole disk; the logger class |

## Where the code and its descriptions differ

- A trim empties the file before it copies the upper half back. If the second `sendfile` fails, or if one of
  the two moves no byte, the log is lost as a whole, which no documentation mentions
  (`LogLoss.TrimLosesAll`, and `LogLoss.TotalLoss` for a run that ends so). If `sendfile` stops short, which the
  code does not notice, the end of the log is lost (`LogLoss.CallLosesEnd`). `LogLoss.TrimRetains` and
  `LogLoss.CallRetains` say for every outcome of every call when the end of the log is kept, and
  `LogLoss.InterleavedRetains` what every interleaving then retains.
- `002/README.md` promises a maximum size. The code looks at the size only with the 1026th write and every
  1025th write after it, at the file without what the stream still holds, and it cuts only to half.
  `LogSize.OverflowsExactly` and `LogSize.WithinLimit` say exactly when the maximum is exceeded,
  `LogSize.LimitExceeded` gives a run for every maximum, and `LogBound` has the bound that holds.
- If, after a check has closed the stream, the second `stat` fails or the log cannot be opened again, logging
  goes to the terminal for good, and only then (`LogMachine.ClosedExactly`, `LogMachine.ClosedForGood`).

## Model

| member | source | states |
|---|---|---|
| RbTree.Head.TurnLeft | 009/include/uv/tree.h:342-360 | the macro sets the links of the element, its right child, the inner grandchild (if any) and the parent or the root pointer to the rotated ones; it touches no other element |
| RbTree.Head.TurnRight | 009/include/uv/tree.h:362-380 | the same for the right rotation |
| RbTree.Head.RotateLeft | 009/include/uv/tree.h:342-360 | at the root, as left or as right child, and with or without inner grandchild: afterwards all links (parent links included) spell out the rotated tree, the in-order sequence of the whole tree is the same, one rotation is counted |
| RbTree.Head.RotateRight | 009/include/uv/tree.h:362-380 | the same for the right rotation |
| RbTree.Head.RotateThereAndBack | 009/include/uv/tree.h:342-380 | rotating left at an element and then right at its replacement restores every field of every element and the root pointer |
| RbSurgery.RotateShape | 009/include/uv/tree.h:342-380 | links changed in the rotated way spell out the rotated tree in the same context |
| RbSurgery.RotateInOrder | 009/include/uv/tree.h:342-380 | rotation does not change the in-order sequence |
| RbModel.AtUnique | 009/include/uv/tree.h:312-318 | two heaps that spell out the same tree agree on every link, parent and colour |
| RbBalance.PlugBalanced | 009/include/uv/tree.h:53-58 | the red-black conditions of a whole tree hold if and only if they hold of the subtree and of its context for that black count |
| RbBalance.UncleRed | 009/include/uv/tree.h:415-421 | red uncle: recolouring moves the red-red conflict to the grandparent |
| RbBalance.InnerChild | 009/include/uv/tree.h:422-427 | inner child: the rotation of the parent keeps one conflict, now at an outer child |
| RbBalance.OuterChild | 009/include/uv/tree.h:428-429 | outer child: recolouring and rotating the grandparent leaves no conflict |
| RbTree.Head.BlackenUncle | 009/include/uv/tree.h:415-421 | exactly the uncle, the parent and the grandparent are recoloured |
| RbTree.Head.FixInsertLeft | 009/include/uv/tree.h:414-429 | one round on the left: either no rotation and the conflict is two levels up, or at most two rotations and the parent is black |
| RbTree.Head.FixInsertRight | 009/include/uv/tree.h:430-446 | the same on the right |
| RbTree.Head.InsertColor | 009/include/uv/tree.h:407-449 | from any tree whose only fault is a red element that may have a red parent: ends with a red-black tree with black root, the same elements in the same order, at most 2 rotations; terminates |
| RbTree.Head.Insert | 009/include/uv/tree.h:598-626 | valid tree again; an element with an equal key is returned and then nothing changes at all; otherwise exactly the new element is put in its place; at most 2 rotations, at most as many comparisons as the tree is high |
| RbBalance.SiblingIsNode | 009/include/uv/tree.h:459-460 | below a missing black node the sibling is never null; a red sibling has a black parent and two black children |
| RbBalance.SiblingRed | 009/include/uv/tree.h:460-464 | red sibling: after the rotation the black node is still the only one missing, now below a red parent with a black sibling |
| RbBalance.NephewsBlack | 009/include/uv/tree.h:465-471 | black nephews: the missing black node moves one level up |
| RbBalance.NearNephewRed | 009/include/uv/tree.h:473-482 | red near nephew: after the rotation the far nephew is red |
| RbBalance.FarNephewRed | 009/include/uv/tree.h:483-489 | red far nephew: after recolouring and rotating the whole tree is red-black |
| RbTree.Head.FixRemoveLeft | 009/include/uv/tree.h:458-490 | one round on the left with a possibly null element: done after at most 3 rotations, or one level up without rotation, or at a red element after one |
| RbTree.Head.FixRemoveRight | 009/include/uv/tree.h:491-524 | the same on the right |
| RbTree.Head.RemoveColor | 009/include/uv/tree.h:451-528 | from any tree that lacks one black node below a possibly null element: ends red-black with black root, the same elements in the same order, at most 3 rotations; terminates although the red-sibling case lowers the element |
| RbTree.Head.Splice | 009/include/uv/tree.h:547-556 | taking out an element with at most one child leaves the tree with that child in its place; the fields of the element itself stay |
| RbTree.Head.TakeLinks | 009/include/uv/tree.h:559-570 | the successor gets all four fields of the removed element, and the child or root pointer and the parent pointers that led to that element lead to the successor |
| RbTree.Head.TakeOver | 009/include/uv/tree.h:559-570 | afterwards the links spell out the same tree with the successor object in place of the removed one |
| RbTree.Head.Leftmost | 009/include/uv/tree.h:534-539 | the successor is the leftmost element of the right subtree |
| RbTree.Head.RelinkSuccessor | 009/include/uv/tree.h:540-577 | both when the successor is the right child itself and when it is deeper: exactly the removed element is gone from the sequence, child and parent are what the fix-up needs, and one black node is missing there or none, by the colour returned |
| RbSearch.SuccessorBalanced | 009/include/uv/tree.h:540-577 | where a black successor was, one black node is missing; where a red one was, the tree is red-black |
| RbSearch.SuccessorInOrder | 009/include/uv/tree.h:540-577 | the first element of the right subtree in the place of the removed one gives the old sequence without the removed one |
| RbTree.Head.Remove | 009/include/uv/tree.h:530-595 | for any element of any valid tree: valid tree again, exactly that element object is gone and all others remain the same objects in the same order; at most 3 rotations |
| RbTree.Head.Find | 009/include/uv/tree.h:629-644 | the element with the key, or null if there is none; at most as many comparisons as the tree is high |
| RbTree.Head.NFind | 009/include/uv/tree.h:647-665 | the least element that is not below the key, or null if all are below it; the same bound |
| RbTree.Head.MinMax | 009/include/uv/tree.h:711-724 | the first element for a negative direction, the last one otherwise, null for an empty tree |
| RbSearch.HeightBound | 009/include/uv/tree.h:60-61 | 2 to the height is at most (n + 1) squared: the maximum height is 2 lg (n + 1) |
| RbTree.Head.NextBelow | 009/include/uv/tree.h:671-674 | down the right subtree: the element one place further in the sequence |
| RbTree.Head.NextAbove | 009/include/uv/tree.h:675-685 | up the parent links: the first element after the subtree, or null |
| RbTree.Head.Next | 009/include/uv/tree.h:668-687 | the in-order successor, null exactly at the last element |
| RbTree.Head.Prev | 009/include/uv/tree.h:690-709 | the in-order predecessor, null exactly at the first element |
| RbIterate.NextThenPrev | 009/include/uv/tree.h:668-709 | calling RB_NEXT and then RB_PREV on its result gives the element back, except from the last one, where RB_NEXT gives null |
| RbIterate.PrevThenNext | 009/include/uv/tree.h:668-709 | the same the other way round, except from the first one |
| RbIterate.Foreach | 009/include/uv/tree.h:738-741 | visits exactly the sorted sequence |
| RbIterate.ForeachReverse | 009/include/uv/tree.h:753-756 | visits exactly its reverse |
| RbIterate.ForeachFrom | 009/include/uv/tree.h:743-746 | from any element, with a body that at every element removes any elements of the tree but the saved next one: visits exactly `Visits` and leaves exactly `Remains` |
| RbIterate.ForeachSafe | 009/include/uv/tree.h:748-751 | the same from the first element; if the body removes no element before its turn, every original element is visited once, in order, and exactly those are left that no visit removed |
| RbIterate.MeetsExactly | 009/include/uv/tree.h:743-751 | such a loop meets an element if and only if no element met before removes it, other than the one met just before it (for which it is the saved next one) |
| RbIterate.VisitsAscending | 009/include/uv/tree.h:743-751 | it meets elements of the tree only, in ascending order, so none twice |
| RbIterate.RemainsExactly | 009/include/uv/tree.h:743-751 | an element is left in the tree if and only if it was met, or behind the start of the loop, and is not removed when it is met or later |
| RbRuns.Do | 009/include/uv/tree.h:530-724 | each operation is a step of the ordered map, with its answer |
| RbRuns.Run | 009/include/uv/tree.h:530-724 | every run of operations from any valid tree gives the answers and the contents of the ordered map, and no other answers are right |
| OrderedMap.MapOfInserted | 009/include/uv/tree.h:598-626 | an element put into an ascending sequence is one more entry of its map |
| OrderedMap.MapOfRemoved | 009/include/uv/tree.h:530-595 | an element taken out of it is one entry less |
| OrderedMap.CeilingAnswer | 009/include/uv/tree.h:646-665 | the first element not below the key is the least such entry of the map |
| SplayModel.LinkTorn | 009/include/uv/tree.h:100-110 | linking the root to a spine keeps the three parts apart and spelled out, with the last inner link stale |
| SplayModel.RotateTorn | 009/include/uv/tree.h:88-98 | so does rotating the middle |
| SplayModel.AssembleTorn | 009/include/uv/tree.h:112-117 | after the four assignments, with empty or nonempty spines, the links spell out one tree without the dummy |
| SplayModel.HangShape | 009/include/uv/tree.h:112-117 | a spine whose last link is set is one tree, and the dummy leads to its root |
| SplayModel.HangInOrder | 009/include/uv/tree.h:112-117 | its sequence is that of the spine and that of what was hung on it |
| SplayTree.Head.RotateLeft | 009/include/uv/tree.h:94-98 | the rotation at the root of the middle, in place |
| SplayTree.Head.RotateRight | 009/include/uv/tree.h:88-92 | the same to the right |
| SplayTree.Head.LinkLeft | 009/include/uv/tree.h:100-104 | the root and its right subtree join the right spine, the middle shrinks |
| SplayTree.Head.LinkRight | 009/include/uv/tree.h:106-110 | the root and its left subtree join the left spine |
| SplayTree.Head.Assemble | 009/include/uv/tree.h:112-117 | the torn parts become the tree with both spines hung below the root, and the dummy is left behind |
| SplayTree.Head.SeekLeft | 009/include/uv/tree.h:219-228 | one round to the left is exactly one step of the splay of `SplayOrder.Parts`, with or without rotation, and the middle strictly shrinks unless the search ends |
| SplayTree.Head.SeekRight | 009/include/uv/tree.h:229-238 | the same to the right |
| SplayOrder.PartsOrder | 009/include/uv/tree.h:218-241 | while the tree is torn, left spine, middle and right spine always give the original sequence |
| SplayOrder.PartsSplayed | 009/include/uv/tree.h:218-241 | while the tree is torn, the left spine is below the key and the right spine above it; at the end nothing is left on the side of the key |
| SplayOrder.TopDownOrder | 009/include/uv/tree.h:209-242 | a splay for any key, of any tree, keeps the sequence of element objects |
| SplayOrder.TopDownSplayed | 009/include/uv/tree.h:209-242 | the root after it has the key, or everything on its side of the key is beyond the key |
| SplayOrder.TopDownHalves | 009/include/uv/tree.h:218-238 | each of the two spines the splay hangs below the root is at most half as long as the search path was: two levels of the path cost a spine at most one node, by the rotation or because the path bends |
| SplayOrder.TopDownEnds | 009/include/uv/tree.h:247-278 | splaying a key below (above) all elements leaves the root without left (right) child |
| SplayTree.Head.Splay | 009/include/uv/tree.h:209-242 | terminates; the links spell out exactly the tree `SplayOrder.TopDown` for this key: the same sequence of element objects, and the element with the key or a neighbour of the key at the root |
| SplayOrder.SplayedBeside | 009/include/uv/tree.h:160-162 | in terms of the sequence: the root is the element with the key, or its immediate predecessor or successor |
| SplayTree.Head.SplayMinMax | 009/include/uv/tree.h:247-278 | for every nonzero direction: terminates; the tree is exactly that of splaying a key beyond all elements in that direction: same sequence, no child on that side of the root |
| SplayTree.Head.Find | 009/include/uv/tree.h:128-137 | the element with the key or null; same sequence, and the element or a neighbour of the key is the root; the tree is exactly the splayed one |
| SplayTree.Head.Next | 009/include/uv/tree.h:139-151 | the in-order successor of an element of the tree, null exactly at the last one; that element is the root; the tree is exactly the splayed one |
| SplayTree.Head.MinMax | 009/include/uv/tree.h:153-158 | the first or last element, which is the root, or null for an empty tree; the tree is exactly the splayed one |
| SplayOrder.SplitOrder | 009/include/uv/tree.h:172-180 | the split around the new element is in order because the old root is beside the key |
| SplayTree.Head.Insert | 009/include/uv/tree.h:164-186 | an element with an equal key is returned and the contents stay; otherwise exactly the new element is added and becomes the root; the tree is exactly the splayed one, split around the new element |
| SplayOrder.NothingRight | 009/include/uv/tree.h:199-202 | splaying a key above a whole subtree leaves the root of that subtree without right child |
| SplayTree.Head.JoinBelow | 009/include/uv/tree.h:199-202 | so overwriting that right child with the saved subtree drops nothing but the removed root; the last element of the left subtree is the new root |
| SplayTree.Head.Remove | 009/include/uv/tree.h:188-207 | null and the same contents if no element has the key, and then a neighbour of the key is the root; otherwise the argument is returned, exactly the element with the key is gone, and the element before it, if any, is the root; the tree is exactly the splayed one, without its root and with its left subtree splayed once more |
| SplayRuns.Foreach | 009/include/uv/tree.h:292-295 | visits exactly the sorted sequence although every step rebuilds the tree |
| SplayRuns.Do | 009/include/uv/tree.h:128-207 | each operation is a step of the ordered map, with its answer |
| SplayRuns.Run | 009/include/uv/tree.h:128-207 | every run of operations gives the answers and the contents of the ordered map, and no other answers are right |
| Logger.Logger.LogInit | 002/log.cpp:40-57 | without a file only level and limit change; with one, the old stream is written out to its file, the named file is opened for appending or the stream is null, and no file loses anything; level and limit change only on success |
| Logger.Logger.KeepUpperHalf | 002/log.cpp:78-116 | what the file holds after any outcome of open, mkstemp, both sendfile calls and ftruncate; no other file changes or appears; 0 exactly if none of the five fails |
| Logger.Logger.CheckFileSize | 002/log.cpp:59-121 | leaves the state of a whole check, for every outcome of every call; no other file changes or appears; 0 exactly if the file is below the limit or every call from the second stat to the reopening succeeds |
| Logger.Logger.Log | 002/log.cpp:123-154 | above the level nothing happens; with a null stream the record goes to the terminal; otherwise the state is that of a whole logged record; no other file changes or appears |
| LogModel.PrintKeeps | 002/log.cpp:141-142 | printing appends to the log (file and stream together), and the file grows by exactly what the stream writes out |
| LogModel.CheckSees | 002/log.cpp:66-69 | a check compares the limit with the file and what the stream has written out of its buffer and of the record, and with nothing else |
| LogModel.BufferedUnseen | 002/log.cpp:66-69 | so a file below the limit is left alone, however much the stream holds, if it writes nothing out |
| LogModel.TrimmedBytes | 002/log.cpp:98-112 | a trim that copies back leaves the bytes from the middle of the log on, as many as both transfers move |
| LogModel.FinishIsLogged | 002/log.cpp:139-152 | the critical section taken one call at a time has the effect of the whole |
| LogMachine.StepSerialized | 002/log.cpp:139-152 | every step of every thread keeps: only the owner of the mutex is in the critical section, and its end will be one whole call after all earlier ones |
| LogMachine.Serializable | 002/log.cpp:139-152 | under every interleaving the shared state is that of whole calls in lock order, and the records written are those of the calls that found the log open |
| LogRequests.NoneLost | 002/log.cpp:125-152 | at every step of every interleaving, the records of the finished calls and those in flight are, with multiplicity, the records asked for at a level that passes; once all threads are idle, each of these was written to the log or found it closed |
| LogRequests.NoneInvented | 002/log.cpp:125-152 | every record of a thread, of a call or of the log was asked for at a level that passes |
| LogRequests.ProgramOrder | 002/log.cpp:125-152 | the calls of each thread are those it asked for at a level that passes, in its own order, but for the one in progress |
| LogMachine.SerialReachable | 002/log.cpp:139-152 | every sequence of calls with any outcomes is what some interleaving does, so what is shown of such sequences happens |
| LogModel.LoggedExactly | 002/log.cpp:59-152 | for every outcome of every call: what a call leaves of the log, and that it closes the stream if and only if a check is due, finds the file too large, and then the second stat or the reopening fails |
| LogMachine.ClosedExactly | 002/log.cpp:71-76 | an open log is closed after a run if and only if one of the calls was such a call |
| LogMachine.ClosedForGood | 002/log.cpp:71-76 | after such a call no later one writes to the log or changes anything |
| LogSuffix.StepSound | 002/log.cpp:71-119 | if sendfile moves all bytes or none, no step of a check leaves anything but a suffix, which may be empty, of what was written |
| LogSuffix.LogIsSuffix | 002/log.cpp:71-152 | under every interleaving and at every step: file and stream hold a suffix of the initial contents, the records in lock order and possibly the header just printed |
| LogSuffix.OnlyFirstCut | 002/log.cpp:78-80 | such a suffix consists of whole records after the end of one record, or of the initial contents |
| LogLoss.TrimRetains | 002/log.cpp:78-112 | for every outcome of the five calls and every log: a trim leaves an end of the log, at least half of it rounded up, if and only if it does not empty the file or both transfers cover the upper half |
| LogLoss.TrimLosesAll | 002/log.cpp:104-112 | it leaves nothing of a log that was not empty if and only if it empties the file and nothing comes back (the second sendfile fails, or one of the two moves no byte) |
| LogLoss.TrimSuffix | 002/log.cpp:78-112 | it leaves an end of every log of a given size, possibly empty, if and only if one of these two holds |
| LogLoss.CallRetains | 002/log.cpp:123-152 | a call of the logger keeps the end of the log and its record, at least half of it, if and only if it does not trim or its trim is safe |
| LogLoss.CallLosesAll | 002/log.cpp:104-147 | a call of the logger leaves an empty log, for a log and record not empty, if and only if it trims, empties the file and brings nothing back |
| LogLoss.CallLosesEnd | 002/log.cpp:98-147 | a call whose trim brings back only a part loses the last byte of every log in which that byte occurs once |
| LogLoss.RunRetains | 002/log.cpp:59-154 | over every run: every call keeps at least half of the log it finds and its record if and only if every trim is safe |
| LogLoss.InterleavedRetains | 002/log.cpp:59-154 | under every interleaving whose trims are safe, whatever else fails: the log is a suffix of all that was written, and every call has kept at least half |
| LogLoss.TotalLoss | 002/log.cpp:104-112 | for every maximum, a run of 1026 calls in which every sendfile moves all bytes or none, and which ends with an open and empty log |
| LogSize.CheckSchedule | 002/log.cpp:131-147 | the first check comes with the 1026th write, later ones with every 1025th write after it, and with no other |
| Logger.Execute | 002/log.cpp:40-154 | any sequence of calls of the logger and of log_init: the state of all variables and of the whole disk, and what goes to the terminal; without log_init it is the serial run of the calls whose records pass the level; the limit once set never changes, and is set by a call of the logger to 1 MiB times the maximum then in force |
| LogStatus.RoutedExactly | 002/log.cpp:40-154 | over any such sequence, the records that go to a file or to the terminal are, in order, those that pass the level set by the last successful log_init |
| LogStatus.OnlyCalls | 002/log.cpp:123-154 | between two calls of log_init the state is that of the serial run of the calls, and no other file changes |
| LogStatus.OnlyCallsRouted | 002/log.cpp:139-152 | the records of the calls that find the log open go to the current file, the others to the terminal |
| LogStatus.AfterAppend | 002/log.cpp:40-154 | a sequence has the effect of its parts one after the other, so this holds of every part between two calls of log_init |
| LogStatus.EveryFileIsSuffix | 002/log.cpp:40-154 | over any such sequence, whatever fails, if sendfile moves all bytes or none and fopen does not open a file without name: every file, with what the stream holds for it, is a suffix of its initial contents and the records that went to it |
| LogSize.LoggedSize | 002/log.cpp:62-81 | one call adds at most one record; a check leaves the log below the limit plus what the stream holds, or cuts it to half, rounded up; the limit stays what it was at the first check |
| LogSize.BetweenChecks | 002/log.cpp:139-148 | as long as no check is due the log grows by exactly the records written |
| LogSize.OverflowsExactly | 002/log.cpp:62-81 | after a call without failures the file exceeds the maximum if and only if either the call trims and the upper half of log and record still exceeds it, or it does not trim and what is written out exceeds it; the same for the log with what the stream holds |
| LogSize.WithinLimit | 002/log.cpp:62-81 | a run without failures that starts with a file within the maximum keeps it within it if and only if no call overflows in this sense |
| LogSize.LimitExceeded | 002/log.cpp:139-148 | for every maximum, a run of 1025 calls without any failure after which the file exceeds it, each record being little more than a 1025th of it |
| LogBound.StaysBounded | 002/log.cpp:62-81 | once the log is at most any bound from max(limit + u, 1025 r) on after a check it is so after every later check, and in between exceeds that only by what was written since |
| LogBound.ExcessHalves | 002/log.cpp:78-80 | from any size, each check that trims halves the excess over 1025 r, rounding up |
| LogBound.FromAnyStart | 002/log.cpp:59-154 | from any start, after n calls the log is bounded by max(limit + u, 1025 r + 1 + d), where d is its first size and a record, halved by every check so far; d is 0 after enough checks |
| LogBound.BoundReached | 002/log.cpp:78-80 | the 1 in that bound is needed: a log of 1025 r + 1 bytes after a check can have that size after the next one |
| LogBound.EveryStep | 002/log.cpp:59-154 | at every step of every interleaving, whatever fails: the log is at most as large as the finished calls left it, with the record in progress |
| LogBound.InterleavedBounded | 002/log.cpp:59-154 | at every step of every interleaving: once within the bound, the log exceeds it by at most 1025 r, and after a check not at all |
| LogBound.InterleavedApproaches | 002/log.cpp:59-154 | the bound of `FromAnyStart` at every step of every interleaving, from any start |

## Left out

- RB_AUGMENT (`009/include/uv/tree.h:338-340`): an empty hook by default; no claim about summaries of subtrees is made.
- The amortised bound of the splay tree (`009/include/uv/tree.h:49-51`): only the halving of the search path by each splay is proved (`SplayOrder.TopDownHalves`).
- RB_FOREACH_REVERSE_FROM and RB_FOREACH_REVERSE_SAFE: mirror images of the forward forms.
- The comparison function given by the user: elements carry an integer key and are compared by it. Any finite set of elements under a total preorder can be numbered so.
- Elements have a red-black and a splay entry at once; a type with one entry only, or with several of one kind, is not modelled separately.
- SplayTree.Head.Next needs an element of the tree, SplayTree.Head.SplayMinMax a nonzero direction and RbTree.Head.Remove an element of the tree, as the source does; the splay itself needs a nonempty tree, which its callers check.
- In the logger: time stamps, formatting and the level names; a record is two byte strings.
- LogModel.Limit: `1024 * 1024 * g_max_mb` is computed in natural numbers, which agrees with the source's `int` for `max_mb` below 2048.
- RbIterate.ForeachFrom: the body of the loop removes elements; one that inserts some is not modelled.
- LogSuffix.LogIsSuffix: assumes that what `fprintf` and `fclose` write to the file arrives there (the source looks at the result of neither), and that nobody else writes to the file.
- `log_init` from user code while threads are logging: the source does not lock there, so it is not a step of `LogMachine`; level and limit are set before.
- `009/log/log.cpp`: the same logger with a check after every record.
- `001`, `003` to `008`, `010` to `013` and the rest of `009`: clients of libraries, string slicing and single calls.
