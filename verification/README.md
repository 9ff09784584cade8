# Verified models of the repository's stateful components

The repository is a collection of small C and C++ programs. This project models the parts of them that are hard to get
right, and proves what they promise:

- **The election of a master** among slaves (`supertel/task1`). Any number of slaves, any draws, ties and redraws, any
  interleaving of deliveries over channels that keep the order of each sender's votes. `Voting.dfy` holds one slave's
  transitions, `Election.dfy` a round, `ElectionTies.dfy` what ties may do, `Slave.dfy` the slave itself with its timers.
- **The AVL tree** (`supertel/lib`). `AvlShape.dfy` has the shape with one-byte stored heights; `AvlHeap.dfy`,
  `AvlInsertOrGet.dfy`, `AvlRemoval.dfy`, `AvlTraversal.dfy`, `AvlWalk.dfy` and `AvlTree.dfy` have the nodes in the heap with
  their child and parent links, tied to the shape, and what walking over those links does.
- **The streaming packet receiver** (`iss`): `Packets.dfy` says what a byte stream means, `Receiver.dfy` is the
  incremental parser with its buffer.
- **The bracket checker** (`cqg`): `Brackets.dfy` and `BracketMain.dfy`, a block reader, a checker and a reporting loop
  whose report depends on the text alone.
- **Supporting code**: the economic buffer policy, the linked list, the Pearson hash, the job table of the io service, the
  running sums of the master, the framing of driver commands, and the database worker with its cache. `Common.dfy` holds
  what several of them share.

Pure code is modelled by functions and lemmas, code that updates its state by classes and methods whose contracts tie the
new state to a function of the old one. Nothing was executed: all statements are about the models.

## Where the code and what is said about it differ

The models follow the code. Where a promise fails, a lemma shows an input and another one says exactly when it holds.

- A round of voting is meant to find a master (`supertel/task1/README`). It always does if and only if there are at most
  two slaves (`ElectionTies.AlwaysElectsExactly`, with a failing round for every larger number in
  `ElectionTies.ManyMayElectNobody`): a slave that draws again after a tie may draw less than a vote it has refused before.
  With pairwise different votes the largest one wins, for any number of slaves (`Election.LargestVoteWins`).
- `node_remove_min` does not relink the parent of the extracted node's right child. Parent links are exact after a removal
  if and only if `AvlRemoval.LosesParent` does not hold of the shape (`AvlRemoval.ExactAfterRemovalExactly`); seven
  insertions suffice for it to hold (`AvlRemoval.SevenKeysLoseAParent`). Walking in either direction is then right from
  every node if and only if no parent was lost (`AvlWalks.WalkAfterRemovalExactly`); with the seven keys, a walk ends two
  nodes too early (`AvlWalks.SevenKeysCutTheWalk`).
- Balance, heights, order and count survive a lost parent (`AvlTrees.AvlTree.Run`), as long as removed nodes stay
  allocated: a wrong link leads to a removed node or to the node's anchor, the node on whose right side it hangs at the end
  of left children only, and a later removal that writes through a link to an anchor writes what is assigned anew before
  anything reads it. The code frees removed nodes, and what then happens through a link to one of them is outside of the
  model.
- One call of `Receiver::Receive` delivers at most one packet, so that a backlog can build up (`Packets.TwoInOneChunk`).
  There never is one if and only if no chunk holds the ends of two packets (`Packets.CaughtUpExactly`); how large it is and
  when it has drained say `Packets.BacklogExactly` and `Packets.DrainedExactly`.
- A framed text packet is read back if and only if it does not start with the start byte of a binary packet and its first
  terminator is the appended one (`Packets.FrameThenFirst`, with an input in `Packets.DollarIsNotReadBack`).
- A failure of the checker is meant to be cumulative (`cqg/include/ParenthesisChecker.h:21-22`). It is if and only if every
  block that follows an excess has one of its own (`ParenthesisCheckers.CumulativeExactly`, with an input in
  `ParenthesisCheckers.FailureIsForgotten`). The reporting loop resets the checker after each failure.
- A reply to a request for all records carries the kind of the reply before it. It is Ok if and only if the latest request
  of another kind succeeded, or there was none and the service started so (`SerialDatabase.GetAllIsOkExactly`, with an input
  for every table in `SerialDatabase.GetAllAfterMiss`).
- The average temperature divides a signed sum by an unsigned count. It is the mean if and only if
  `MasterSums.AverageIsMeanExactly` says so; three slaves at -1 have an average of 84 (`MasterSums.ThreeBelowZero`).
- Handlers of commands with two or more arguments are given the last argument first and then what lies behind the buffer;
  they are given the arguments if and only if there is at most one (`DriverConnections.Connection.Run`).
- `list_remove_and_advance` without an element counts a removal that does not happen (`LinkedLists.List.RemoveAndAdvance`).
- `ParenthesisChecker::reset` lacks a `return` on success and is taken to return true.

## Assumptions

Votes arrive reliably and in the order of each sender, and the polling interval is long enough for every vote of the round
to arrive (`supertel/task1/README:21-26`): a poll timeout is enabled once every vote has been delivered. Within a round,
slaves that wait for a master do not start another one, and no packets of a master arrive. What `random()`, the clock,
`read`, `recv`, `realloc` and the database yield are parameters or steps. `size_t` has 64 bits; keys are mathematical
integers with the order of the source's integers.

## Model

| member | source | states |
|---|---|---|
| Voting.Draw | supertel/task1/src/slave.c:160-161 | A drawn vote is odd, hence not zero, fits 32 bits and is the random number or one more |
| Voting.SmallerVotesAreRemembered | supertel/task1/src/slave.c:237-246 | Smaller votes, in any number and order, leave a slave in the poll with its own vote, and the largest of them is remembered |
| Election.DeliverKeepsPair | supertel/task1/src/slave.c:223-251 | Delivering a vote keeps the invariant between its sender and its receiver, through acceptance, refusal, tie and redraw |
| Election.DeliverKeepsOtherPairs | supertel/task1/src/slave.c:155-251 | A delivery, and the redraw it may cause, keeps the invariant between every other pair of slaves |
| Election.DeliverKeepsSafe | supertel/task1/src/slave.c:155-251 | A delivery keeps the invariant of the whole system |
| Election.MasterGoneKeepsSafe | supertel/task1/src/slave.c:348-352 | So does the disappearance of the master, noticed by any idle slave |
| Election.PollTimeoutKeepsSafe | supertel/task1/src/slave.c:354-367 | So does the end of a polling interval, which makes a master |
| Election.StepKeepsSafe | supertel/task1/src/slave.c:155-367 | Every step of a round keeps the invariant |
| Election.RunIsSafe | supertel/task1/src/slave.c:100-390 | The invariant holds in every state that a round of any number of slaves can reach |
| Election.AtMostOneMaster | supertel/task1/src/slave.c:100-390 | No reachable state of a round has two masters |
| Election.AtMostOneCandidate | supertel/task1/src/slave.c:155-390 | When all votes are delivered, at most one slave polls, and if one does (or is the master) all others wait |
| Election.DeliverKeepsStanding | supertel/task1/src/slave.c:223-251 | With different votes there is no tie, and a sender of a vote still polls with it, has been exceeded, or is the master with the largest |
| Election.DeliverKeepsMet | supertel/task1/src/slave.c:184-251 | A vote is still under way to every slave that polls or is idle, or has been met with a larger one |
| Election.PollTimeoutCounts | supertel/task1/src/slave.c:354-367 | A slave whose interval ends has the largest vote of all |
| Election.RunIsCounted | supertel/task1/src/slave.c:155-390 | These facts hold in every reachable state of a round with pairwise different votes |
| Election.LargestVoteWins | supertel/task1/src/slave.c:155-390 | If the votes of a round are pairwise different and there is one, then after all deliveries the sender of the largest one, and nobody else, is elected and all others wait |
| ElectionTies.VoteKeepsStep | supertel/task1/src/slave.c:184-251 | Two slaves stay in step: after any delivery one is a tie ahead, or each has the other's latest vote to come or found it smaller, or one has left and cannot be outvoted |
| ElectionTies.DuelOfAction | supertel/task1/src/slave.c:155-367 | Every action of a round of two slaves keeps them in step |
| ElectionTies.DuelOfRun | supertel/task1/src/slave.c:155-390 | Two slaves are in step in every reachable state |
| ElectionTies.FewAlwaysElect | supertel/task1/src/slave.c:155-390 | With at most two slaves every complete round, ties included, leaves a candidate |
| ElectionTies.NobodyEnters | supertel/task1/src/slave.c:155-173 | An idle slave that draws no more than the vote it received leaves the poll at once and sends nothing |
| ElectionTies.DrainChannel | supertel/task1/src/slave.c:184-221 | Votes to slaves of which none polls can all be delivered without any of them entering the poll |
| ElectionTies.ManyMayElectNobody | supertel/task1/src/slave.c:248-250 | For every number of slaves from three on there is a complete round after which nobody polls or is master |
| ElectionTies.AlwaysElectsExactly | supertel/task1/src/slave.c:155-390 | Every complete round of n slaves elects somebody if and only if n is at most two |
| SlaveMachine.Slave.constructor | supertel/task1/src/slave.c:94-98 | A new slave is at rest, has sent nothing, keeps the invariant and has its first master-gone deadline |
| SlaveMachine.Slave.GoIdle | supertel/task1/src/slave.c:94-98 | Both votes are cleared and the master-gone deadline is renewed |
| SlaveMachine.Slave.PrepareToPoll | supertel/task1/src/slave.c:100-105 | The poll starts from the vote received, and the master-gone job is withdrawn |
| SlaveMachine.Slave.FinishMasterPolling | supertel/task1/src/slave.c:376-390 | The votes survive only in the state that waits for a master, which alone arms the master-gone timer; the poll timer is withdrawn on leaving the poll |
| SlaveMachine.Slave.Poll | supertel/task1/src/slave.c:155-182 | A vote is broadcast if and only if it exceeds the largest one known, with the moment of the vote and the poll deadline set from now; otherwise the slave waits, with a new master-gone deadline. The invariant holds afterwards |
| SlaveMachine.Slave.ActIdle | supertel/task1/src/slave.c:184-221 | Keeps the invariant; a request or message renews the deadline and leaves the slave at rest, a reset or response changes nothing, and a vote makes it poll with a larger one or wait |
| SlaveMachine.Slave.ActPoll | supertel/task1/src/slave.c:223-265 | Keeps the invariant; a larger vote makes the slave wait with both votes kept and its poll timer withdrawn, a smaller one is remembered, an equal one makes it vote again; packets of a master lay it to rest with a new deadline |
| SlaveMachine.Slave.ActMaster | supertel/task1/src/slave.c:267-323 | Keeps the invariant; packets of another master and resets lay the slave to rest with a new deadline and the embedded master taken down, and a vote draws it into a poll |
| SlaveMachine.Slave.ActWaitingMaster | supertel/task1/src/slave.c:325-346 | Keeps the invariant; votes change nothing at all, packets of a master lay the slave to rest: idle, both votes cleared, deadline renewed |
| SlaveMachine.Slave.MasterTimedOut | supertel/task1/src/slave.c:348-352 | From either waiting state the slave votes and polls, with the invariant restored |
| SlaveMachine.Slave.PollTimedOut | supertel/task1/src/slave.c:354-367 | A polling slave becomes master with a periodic timer; in any other state nothing changes |
| SlaveMachine.Slave.Dispatch | supertel/task1/src/slave.c:392-401 | In every state, on the fields: a request or message leaves the slave idle with both votes zero and a new deadline, and nothing but the response is sent; a reset leaves it idle; a response changes nothing; a vote draws an idle slave or a master into a poll; an expiry of the master-gone timer starts one; a poll expiry makes a polling slave the master and otherwise only unregisters its timer. The invariant is kept |
| SlaveMachine.Slave.Run | supertel/task1/src/slave.c:94-390 | After any sequence of events: zero votes when idle or master, an odd broadcast vote above all received while polling, the master-gone job registered exactly in the two waiting states, the poll timer periodic and the embedded master up exactly in the master state |
| SlaveMachine.Slave.Follow | supertel/task1/src/slave.c:184-221 | Under a living master, whose packets come within the timeout, a slave stays at rest and sends nothing but responses, whatever else but votes happens |
| TimerJobs.Post | supertel/lib/timer.c:43-88 | Arming a timer registers a job where none is pending and replaces none, and touches no other job: what the slave's timers assume of the job table |
| TimerJobs.Cancel | supertel/lib/timer.c:113-116 | Cancelling unregisters the job of that timer only |
| TimerJobs.Expire | supertel/lib/timer.c:11-21 | An expiry runs a job if and only if one is registered, and a oneshot one is unregistered |
| AvlShape.HeightNeedsNodes | supertel/lib/avl-tree.c:62-77 | A balanced tree of stored height h has at least fib(h + 2) - 1 nodes |
| AvlShape.HeightBound | supertel/lib/avl-tree.c:72-77 | A tree whose count fits a 64-bit size_t has height at most 91, so that the one-byte height does not wrap |
| AvlShape.BalanceKeepsOrder | supertel/lib/avl-tree.c:80-140 | Rebalancing keeps the sequence of keys, whatever the heights |
| AvlShape.BalanceRestores | supertel/lib/avl-tree.c:120-140 | From children that differ by at most two levels, rebalancing meets no missing child and restores factors, exact heights and order, with a height between the higher child's and one more |
| AvlShape.Insert | supertel/lib/avl-tree.c:143-162 | The result is balanced with exact heights, and at most one level higher |
| AvlShape.InsertPlaces | supertel/lib/avl-tree.c:143-162 | The key is put after every key not greater and before every greater one; nothing else moves |
| AvlShape.FindsExactly | supertel/lib/avl-tree.c:371-382 | The search finds a key if and only if it is in the tree, duplicates or not |
| AvlShape.InsertOrGet | supertel/lib/avl-tree.c:165-192 | The result is balanced with exact heights, and at most one level higher |
| AvlShape.InsertOrGetExactly | supertel/lib/avl-tree.c:165-192 | A present key leaves the tree as it is; an absent one has the effect of an insertion |
| AvlShape.RemoveMin | supertel/lib/avl-tree.c:205-212 | Removes the first key in order, keeps balance and heights, loses at most one level |
| AvlShape.Remove | supertel/lib/avl-tree.c:231-283 | The result is balanced with exact heights, and at most one level lower |
| AvlShape.RemoveDeletes | supertel/lib/avl-tree.c:231-283 | Removing a present key deletes exactly one occurrence and nothing else |
| AvlShape.RemoveOfAbsent | supertel/lib/avl-tree.c:231-283 | Removing an absent key leaves the tree as it is |
| AvlShape.CallKeeps | supertel/lib/avl-tree.c:384-438 | Each API call keeps order, balance and heights, counts exactly and acts as the operation on a bag of keys |
| AvlShape.EveryRunHolds | supertel/lib/avl-tree.c:384-438 | After every run of calls: balance, exact heights, order, exact count and the contents of the bag |
| AvlShape.EveryRunGoesOn | supertel/lib/avl-tree.c:384-438 | Every list of fewer calls than size_t counts is such a run |
| AvlHeap.RotateLeft | supertel/lib/avl-tree.c:80-97 | Child links, heights and parent links after the rotation: the moved subtree hangs below its new parent and keeps its anchor, the lowered node is linked exactly, the raised one inherits the link of the lowered one |
| AvlHeap.RotateRight | supertel/lib/avl-tree.c:100-117 | The mirror image |
| AvlHeap.Balance | supertel/lib/avl-tree.c:120-140 | The nodes hang as the rebalanced shape says, parent links are as good as they were, exact or not, and only the lowered subtree is written |
| AvlHeap.TurnLeft | supertel/lib/avl-tree.c:80-97 | A rotation keeps what is said about every parent link, anchors and removed nodes included |
| AvlHeap.TurnRight | supertel/lib/avl-tree.c:100-117 | The mirror image, where the anchors of the moved subtree change sides |
| AvlHeap.BalancedShape | supertel/lib/avl-tree.c:80-140 | The shape of the relinked nodes is the rebalanced shape, and the nodes keep their order |
| AvlHeap.Insert | supertel/lib/avl-tree.c:143-162 | One node is allocated; child links and heights are exact afterwards, parent links as good as they were (exact if they were), and the nodes are the old ones and the new one |
| AvlHeap.InsertedLine | supertel/lib/avl-tree.c:143-162 | The other nodes keep their order, and the new one stands after every node whose key is not greater |
| AvlHeap.Leftmost | supertel/lib/avl-tree.c:195-197 | Returns the first node in order |
| AvlInsertOrGet.InsertOrGet | supertel/lib/avl-tree.c:165-192 | The same; the node of a present key is returned with every node where it was, otherwise a new one is inserted; the flag tells which |
| AvlRemoval.RemoveMin | supertel/lib/avl-tree.c:205-212 | The first node is taken out; its right child moves up with a parent link that still leads to the first node, which is its new anchor; everything else is as good as it was |
| AvlRemoval.Succeed | supertel/lib/avl-tree.c:259-279 | The first node on the right is taken out and then takes the place of the removed one, between its subtrees and below its parent |
| AvlRemoval.Remove | supertel/lib/avl-tree.c:231-283 | Whatever parent links earlier removals have left wrong: child links, heights and order are those of the shape, every parent link is exact or leads to the anchor of its node or to a removed node, and the write through the parent link of the removed node hits the side of the parent that is assigned next, the right link of the anchor, or a removed node. Where all links were exact, all but one are, and that one leads to a node that has it on neither side |
| AvlRemoval.ReplaceRoot | supertel/lib/avl-tree.c:247-279 | The node that the parent link leads to lies outside of the subtree, and only its child link on the harmless side is written |
| AvlRemoval.Replant | supertel/lib/avl-tree.c:262-277 | The assignments in their order: child links, parent link, the child link of the node that it leads to, and the parent links of both subtrees |
| AvlRemoval.PutAndBalance | supertel/lib/avl-tree.c:262-279 | The replacement takes over the parent link of the removed node; a right child of it that does not become its right child is left with a wrong link |
| AvlRemoval.RemovedLine | supertel/lib/avl-tree.c:231-283 | Exactly one node with the key leaves the order, and the others keep theirs |
| AvlRemoval.RemovedOfAbsent | supertel/lib/avl-tree.c:231-283 | Removing an absent key leaves every node in its place |
| AvlRemoval.StaleExactly | supertel/lib/avl-tree.c:205-212 | Which removals leave a wrong parent link, read off the shape before the call |
| AvlRemoval.ExactAfterRemovalExactly | supertel/lib/avl-tree.c:205-283 | Parent links that were exact are exact after a removal if and only if the removed node has no right subtree whose first node lies below its root and has a right child |
| AvlRemoval.SevenKeysLoseAParent | supertel/lib/avl-tree.c:205-283 | Any seven keys can be inserted so that removing one leaves a wrong parent link |
| AvlTraversal.Next | supertel/lib/avl-tree.c:299-322 | From the node at position i of the order to the position that the links say, for all parent links that are exact or lead to an anchor: i + 1, or past the subtree of the anchor after the last node below a wrong link |
| AvlTraversal.Prev | supertel/lib/avl-tree.c:325-348 | The mirror image: i - 1, or before the subtree of the anchor from a node with a wrong link and no left child |
| AvlTraversal.KinOf | supertel/lib/avl-tree.c:214-228 | What each node is to the node its parent link leads to: the root, a left child, a right child, or neither when that is its anchor |
| AvlTraversal.Rightmost | supertel/lib/avl-tree.c:200-202 | Returns the last node in order |
| AvlTraversal.LineIsInjective | supertel/lib/avl-tree.c:299-348 | The order holds every node of the tree exactly once |
| AvlWalks.NextIsRightExactly | supertel/lib/avl-tree.c:299-322 | The successor is right from every node if and only if the parent links are exact |
| AvlWalks.PrevIsRightExactly | supertel/lib/avl-tree.c:325-348 | The predecessor is right from every node if and only if each node with a wrong link has a left child |
| AvlWalks.WalkAfterRemovalExactly | supertel/lib/avl-tree.c:205-348 | After a removal from a tree with exact links the successor is right from every node if and only if no parent was lost, and so is the predecessor |
| AvlWalks.WalkIsWholeExactly | supertel/lib/avl-tree.c:299-322 | A walk from the first node on visits all nodes, in order, if and only if the parent links are exact |
| AvlWalks.SevenKeysCutTheWalk | supertel/lib/avl-tree.c:205-322 | A tree of seven keys whose root is removed: the successor of the fourth node that remains is null, and the last two are never visited |
| AvlTrees.AdditionKeeps | supertel/lib/avl-tree.c:384-391 | Insertion keeps balance, heights and order, adds one to the count and puts the node where its key belongs |
| AvlTrees.RemovalKeeps | supertel/lib/avl-tree.c:428-438 | Removal keeps balance, heights and order; one node with the key is gone, or every node is where it was |
| AvlTrees.RemoveBelow | supertel/lib/avl-tree.c:205-283 | Removal from a whole tree keeps balance, order and count; parent links that were exact stay exact if and only if no parent is lost |
| AvlTrees.RemoveFromExact | supertel/lib/avl-tree.c:205-348 | One removal from exact links, and when both directions of walking are right afterwards |
| AvlTrees.AvlTree.constructor | supertel/lib/avl-tree.c:362-369 | A new tree is valid and empty, with exact links |
| AvlTrees.AvlTree.Get | supertel/lib/avl-tree.c:371-382 | Null if and only if the key is absent, otherwise a node of the tree with the key |
| AvlTrees.AvlTree.Add | supertel/lib/avl-tree.c:384-391 | Valid stays valid and exact stays exact: links, heights, balance, order and count; one new node, in its place |
| AvlTrees.AvlTree.AddOrGet | supertel/lib/avl-tree.c:393-407 | The same, and nothing moves when the key is present |
| AvlTrees.AvlTree.Remove | supertel/lib/avl-tree.c:428-438 | Valid stays valid, wrong parent links or not: the nodes hang as the shape says and are counted |
| AvlTrees.AvlTree.AddAll | supertel/lib/avl-tree.c:143-162 | After any sequence of insertions all parent links are exact and the root has no parent |
| AvlTrees.AvlTree.Run | supertel/lib/avl-tree.c:384-438 | After every run of calls: exact child links and heights, balance, order, count and contents in the heap, although parent links may be wrong; they are exact if no removal has lost a parent |
| AvlTrees.AvlTree.Walk | supertel/lib/avl-tree.c:299-322 | Wherever no parent link leads to a removed node: the nodes visited are those that the links say, and all of them, in order, if and only if the links are exact |
| Packets.FirstExtends | iss/receiver.cpp:148-218 | More bytes do not change a packet that is complete |
| Packets.ParseExtends | iss/receiver.cpp:148-228 | Parsing a longer stream goes on where the shorter one stopped |
| Packets.ReceiveKeeps | iss/receiver.cpp:47-61 | One call neither loses, invents nor reorders packets, delivered or buffered |
| Packets.DeliveredThenBuffered | iss/receiver.cpp:47-228 | For every split into chunks, the packets delivered and then those in the buffer are the packets of all bytes received |
| Packets.CaughtUpExactly | iss/receiver.cpp:220-228 | No backlog is ever left if and only if no chunk holds the ends of two packets |
| Packets.DeliveredIs | iss/receiver.cpp:47-61 | The exact number delivered: with each chunk that is not empty one more, as long as there is one |
| Packets.BacklogExactly | iss/receiver.cpp:47-228 | The receiver is at most b packets behind if and only if since no moment more than b packets have ended in excess of the calls since then that brought bytes |
| Packets.DrainedExactly | iss/receiver.cpp:47-228 | A backlog has drained if and only if since no moment more packets have ended than calls have brought bytes |
| Packets.TwoInOneChunk | iss/receiver.cpp:220-228 | Any two packets in one chunk: the first is delivered, the second stays in the buffer |
| Packets.Sized | iss/main.cpp:87-89 | Four bytes from which the size is read back |
| Packets.SizeIsLittleEndian | iss/receiver.cpp:185-188 | One more in byte i of a size is 256^i more, and no bytes set are zero |
| Packets.BinaryFormat | iss/receiver.cpp:157-203 | Any bytes 0x24, a size with its least significant byte first, and that many bytes are the binary packet of those bytes |
| Packets.BinaryNotYet | iss/receiver.cpp:177-203 | With fewer bytes there is no packet yet |
| Packets.TextFormat | iss/receiver.cpp:206-218 | Any other bytes up to the first 13, 10, 13, 10 are the text packet of those bytes |
| Packets.FrameThenFirst | iss/main.cpp:84-90 | A framed packet is read back whole if and only if it is sendable |
| Packets.DollarIsNotReadBack | iss/receiver.cpp:157-165 | A text that starts with the start byte of a binary packet is not read back as a text |
| Packets.FrameAllThenParse | iss/main.cpp:84-105 | Any list of sendable packets, framed one after another, parses into that list |
| Packets.RoundTrip | iss/main.cpp:69-105 | Framed and fed in chunks none of which holds two packet ends, they are all delivered, and nothing else |
| Receivers.Receiver.Append | iss/receiver.cpp:104-113 | The buffer is extended by the chunk, also when it has to move; the parsing state stays valid |
| Receivers.Receiver.Shift | iss/receiver.cpp:75-81 | The bytes up to the offset are dropped in place |
| Receivers.Receiver.Memmem | iss/receiver.cpp:120-145 | The first occurrence of the needle, or none if there is none |
| Receivers.Receiver.PacketFinished | iss/receiver.cpp:220-228 | One packet is delivered and its bytes are dropped |
| Receivers.Receiver.PacketContinueText | iss/receiver.cpp:206-218 | Delivers a text packet exactly when the buffer starts with one; what is skipped meanwhile holds no terminator |
| Receivers.Receiver.BinaryPacketHeader | iss/receiver.cpp:177-193 | Delivers a binary packet exactly when the buffer starts with a complete one, size included |
| Receivers.Receiver.BinaryPacketData | iss/receiver.cpp:195-203 | The same once the size is known |
| Receivers.Receiver.PacketStarted | iss/receiver.cpp:148-168 | The same for either kind, from the first byte on |
| Receivers.Receiver.Receive | iss/receiver.cpp:47-68 | One call, from any point of a packet, does what the specification of a call says |
| Receivers.Receiver.ReceiveAll | iss/receiver.cpp:47-228 | After any chunks the packets delivered and those in the buffer are the packets of the stream |
| BracketReport.FirstExcessIs | cqg/test/creator.c:23-38 | The first excess bracket is where the depth first becomes negative; without one it never does |
| BracketReport.JudgeExactly | cqg/test/creator.c:42-52 | A line is fine if and only if no prefix has a negative depth and the whole has depth zero; lacks a closing bracket, at its end, if and only if no prefix does and the depth is positive; and has a superfluous one at p if and only if the prefix up to p is the first with a negative depth |
| BracketReport.DepthCounts | cqg/test/creator.c:26-31 | The depth is the number of opening brackets less that of closing ones |
| BracketReport.ReportsOfLine | cqg/test/creator.c:42-52 | The report of a text is that of its first line, followed by that of the rest |
| BracketLines.OneReportEach | cqg/test/creator.c:18-53 | A text of whole lines gets one report a line, in order, each about its line alone |
| ParenthesisCheckers.ParenthesisChecker.ValidateNext | cqg/lib/ParenthesisChecker.cpp:34-48 | One character extends what has been accepted, or is the first excess bracket and leaves no trace but in the position |
| ParenthesisCheckers.ParenthesisChecker.Validate | cqg/lib/ParenthesisChecker.cpp:29-51 | A block, also after a failure, is accepted if and only if it brings no excess to what has been accepted since; otherwise the position is that of the first excess, and the checker goes on as on a new line |
| ParenthesisCheckers.ParenthesisChecker.Done | cqg/lib/ParenthesisChecker.cpp:53-55 | Accepts if and only if the depth of what has been accepted is zero, hence after any failure |
| ParenthesisCheckers.ParenthesisChecker.Reset | cqg/lib/ParenthesisChecker.cpp:17-27 | Ready for a new line |
| ParenthesisCheckers.ParenthesisChecker.ValidateWaitForOpen | cqg/lib/ParenthesisChecker.cpp:65-76 | What a character does when no bracket is open |
| ParenthesisCheckers.ParenthesisChecker.ValidateWaitForAny | cqg/lib/ParenthesisChecker.cpp:78-91 | What a character does when one is open |
| ParenthesisCheckers.ValidateAll | cqg/lib/ParenthesisChecker.cpp:29-55 | Any number of calls, failed ones among them, and then one of `done`, which accepts whatever ends with a failure |
| ParenthesisCheckers.CumulativeExactly | cqg/include/ParenthesisChecker.h:21-22 | All calls after a failed one fail, for any blocks, if and only if every block that follows an excess has one of its own |
| ParenthesisCheckers.FailureIsForgotten | cqg/include/ParenthesisChecker.h:21-22 | A closing bracket fails, a balanced pair after it passes, and `done` accepts |
| Inputs.Input.Start | cqg/lib/Input.cpp:50-60 | An empty piece before anything has been read |
| Inputs.Input.ReadAnotherBlock | cqg/lib/Input.cpp:116-134 | A block replaces a used-up buffer without changing what is unread; the end and errors are told apart |
| Inputs.Input.TakePiece | cqg/lib/Input.cpp:91-113 | The piece returned, the line break if it was found, and what is unread make up what was unread before |
| Inputs.Input.ReadAndDetectNewline | cqg/lib/Input.cpp:62-114 | The same across blocks; null if and only if nothing was unread |
| Inputs.Input.SkipLine | cqg/lib/Input.cpp:35-39 | What is unread afterwards is what follows the first line break |
| Inputs.Input.ReadUntilNewline | cqg/lib/Input.cpp:31-48 | Drops the rest of the line, unless its end was met, and returns the first piece of the next one |
| BracketProgram.CheckPiece | cqg/src/main.cpp:57-76 | A report is made when the line fails or ends, and it is that of `JudgeExactly` for the whole line so far |
| BracketProgram.ReportPiece | cqg/src/main.cpp:57-76 | The body of the loop: the reports made, the line number and the overall verdict after a piece |
| BracketProgram.LineFails | cqg/src/main.cpp:60-67 | A line that fails in one of its pieces has the report of that piece, wherever it ends |
| BracketProgram.AccountStep | cqg/src/main.cpp:56-79 | After each piece, the reports made and those of what is left are the reports of the text |
| BracketProgram.CheckInput | cqg/src/main.cpp:43-91 | For every split of the input into blocks the reports are those of the text, and the exit code is 1 after a read error, 0 if all lines are fine, otherwise 2 |
| EconomicBuffers.RequestIsPaidFor | supertel/lib/containers.c:66-103 | The bytes a resize copies are covered by the change of size and the potential saved |
| EconomicBuffers.AmortisedCost | supertel/lib/containers.c:66-103 | Over any history of resizes, granted or refused, at most twice the sum of the changes of size is copied, and the user's bytes fit |
| EconomicBuffers.Buffer.Realloc | supertel/lib/containers.c:66-103 | When the block is halved, doubled or made to fit and when it stays, in 64-bit arithmetic; the bytes moved and the changes of size, counted call by call, keep to the amortised bound; the offset stays within the new size |
| LinkedLists.List.Prepend | supertel/lib/containers.c:349-368 | The new element comes first; links in both directions, ends and count are exact |
| LinkedLists.List.Append | supertel/lib/containers.c:370-389 | The new element comes last |
| LinkedLists.List.AddAfter | supertel/lib/containers.c:391-421 | The new element follows the given one, or comes first |
| LinkedLists.List.AddBefore | supertel/lib/containers.c:423-453 | The new element precedes the given one, or comes last |
| LinkedLists.List.RemoveAndAdvance | supertel/lib/containers.c:455-484 | The element is gone from the sequence, and the one after it is returned; without an element nothing is removed but counted, so that an exact count stays exact if and only if there is one or the list is empty |
| Pearson.TableIsInvertible | supertel/lib/hash-functions.c:6-23 | The table is a permutation |
| Pearson.LanesDiffer | supertel/lib/hash-functions.c:30-33 | Two messages that differ in exactly one byte differ in every lane |
| Pearson.LaneOfByte | supertel/lib/hash-functions.c:31-33 | The lanes of a single byte are the entries of the table that follow it |
| Pearson.LanesApart | supertel/lib/hash-functions.c:30-33 | No two lanes of a message are equal |
| Pearson.XorOfBits | supertel/lib/hash-functions.c:33-33 | A bit of the combination is set where just one operand has it |
| Pearson.LanesAreRecovered | supertel/lib/hash-functions.c:35-35 | Every lane can be read off the combined value |
| Pearson.ByteOfIs | supertel/lib/hash-functions.c:35-35 | Lane j stands in the byte that counts 256^j each |
| Pearson.HashLane | supertel/lib/hash-functions.c:31-33 | The inner loop computes the lane of its number |
| Pearson.Hash | supertel/lib/hash-functions.c:25-39 | The outer loop combines the eight lanes |
| Pearson.HashesDifferEverywhere | supertel/lib/hash-functions.c:25-39 | Two messages that differ in exactly one byte have hashes that differ in all eight bytes |
| Pearson.HashBytesApart | supertel/lib/hash-functions.c:25-39 | The eight bytes of a hash are pairwise different |
| JobTable.IoService.PostJob | supertel/lib/io-service.c:84-121 | Accepted if and only if new jobs are allowed, there is a function and none is pending there; then exactly that slot changes, otherwise none does |
| JobTable.IoService.RemoveJob | supertel/lib/io-service.c:123-144 | Exactly that job is gone |
| JobTable.IoService.StopService | supertel/lib/io-service.c:78-82 | No new jobs, and running only while waiting for the pending ones |
| JobTable.IoService.Notice | supertel/lib/io-service.c:177-200 | Entries without jobs are dropped, nothing pending changes, and the service ends when nothing is left |
| JobTable.IoService.Dispatch | supertel/lib/io-service.c:202-244 | The pending job, and no other, runs; a oneshot job is gone before it does |
| JobTable.IoService.DoStep | supertel/lib/io-service.c:78-244 | What each step does to the pending jobs and the history, and that it keeps both valid |
| JobTable.HistoryOfRun | supertel/lib/io-service.c:218-234 | Running a pending job keeps the history orderly |
| JobTable.HistoryOfPost | supertel/lib/io-service.c:111-115 | So does accepting one |
| JobTable.HistoryOfRemove | supertel/lib/io-service.c:134-138 | So does removing one |
| JobTable.DropKeepsTable | supertel/lib/io-service.c:186-190 | Dropping an entry without jobs changes nothing that is pending |
| JobTable.IoService.Run | supertel/lib/io-service.c:84-246 | In every run, with the calls of the jobs among its steps: one entry per descriptor, event bits exactly for the jobs there, and no job runs that was not accepted, was removed, or is oneshot and has run |
| MasterSums.UpdateIsExact | supertel/task1/src/master-private.c:106-112 | Taking the old reading out and the new one in, with wrap-around, gives the sums of the new readings |
| MasterSums.TotalOfParts | supertel/task1/src/master-private.c:106-112 | The total of one entry is its reading, and totals of parts add up |
| MasterSums.Master.UpdateSlave | supertel/task1/src/master-private.c:85-113 | The latest reading of the address is recorded, and the sums are those of the latest readings |
| MasterSums.Master.CalculateAverages | supertel/task1/src/master-private.c:115-134 | The average of the illuminations lies between any bounds of the latest readings, that of the temperatures where the conversion to an unsigned number does no harm; whether one of them has changed |
| MasterSums.AverageIsMeanExactly | supertel/task1/src/master-private.c:120-122 | The signed sum divided by the unsigned count is the mean, rounded down, if and only if the sum is not negative or adding 2^64 to it adds a multiple of 256 to the quotient |
| MasterSums.ThreeBelowZero | supertel/task1/src/master-private.c:120-122 | Three slaves at one degree below zero have an average of 84 |
| MasterSums.LookupRecorded | supertel/task1/src/master-private.c:89-109 | A record replaces that of its address and no other |
| MasterSums.LatestIs | supertel/task1/src/master-private.c:109-109 | The latest reading of an address is that of the last response from it, if there was one |
| MasterSums.LookupIs | supertel/task1/src/master-private.c:89-89 | An address has the reading of its entry |
| MasterSums.CountIsExact | supertel/task1/src/master-private.c:98-102 | There are as many entries as addresses |
| MasterSums.Master.Run | supertel/task1/src/master-private.c:85-113 | After every history: the sums are those of each address's latest reading, and the count is that of the addresses |
| Commands.ArgAt | supertel/task2/src/shell.c:405-413 | Where each argument of an encoded command starts and ends, and its bytes |
| Commands.EncodeIs | supertel/task2/src/shell.c:399-413 | Byte by byte: signature 1, index, number of arguments, then the length and the bytes of each argument |
| Commands.EncodeCommand | supertel/task2/src/shell.c:390-413 | For arguments of any length: the command with each argument cut to its length modulo 256, and the buffer holds nothing else if and only if none is cut |
| DriverConnections.ArgvFromLast | supertel/task2/src/driver-core.c:201-209 | Collected from the last argument on, the arguments are all of them if there is one, and leave the buffer if there are more |
| DriverConnections.DecideWithin | supertel/task2/src/driver-core.c:63-214 | On the bytes of a valid command the reader asks for bytes of that command only, and calls the handler exactly when it has them all |
| DriverConnections.DecideOnAnything | supertel/task2/src/driver-core.c:63-214 | On any bytes: the connection is closed if and only if they start no command or are the header of one that the driver does not take, a handler is called only for one that it takes, and otherwise more bytes are asked for |
| DriverConnections.DecisionKeeps | supertel/task2/src/driver-core.c:63-212 | Each decision keeps the framing of the stream |
| DriverConnections.Connection.Reader | supertel/task2/src/driver-core.c:34-229 | Asks for more, calls the handler or closes as the decision says, without reading outside of the buffer |
| DriverConnections.Connection.CollectArgs | supertel/task2/src/driver-core.c:203-209 | The loop over the arguments, and whether it leaves the buffer |
| DriverConnections.Connection.DataMayBeRead | supertel/task2/src/unix-socket-server.c:120-192 | Any partial read takes at least one byte and keeps the framing |
| DriverConnections.Connection.Writer | supertel/task2/src/driver-core.c:231-251 | The next command starts from a clean state |
| DriverConnections.Connection.RunOnAnything | supertel/task2/src/driver-core.c:34-251 | Over any bytes, arrivals and partial reads, no handler is called but of a command that the driver has, with no more arguments than it takes |
| DriverConnections.NothingLeft | supertel/task2/src/driver-core.c:34-251 | A connection that waits when no bytes are left has handled everything |
| DriverConnections.Connection.Run | supertel/task2/src/driver-core.c:34-251 | For any arrivals and partial reads, one handler is called per command, in order, with its index and number of arguments, with the arguments themselves if and only if there is at most one, and in the end for all commands |
| SerialDatabase.GetAllIsOkExactly | satellite-soft-labs/src/Database.cpp:244-250 | A request for all records is answered with Ok if and only if the latest earlier request that was not one succeeded on the table it met, or there was none and the service started with Ok |
| SerialDatabase.KindBeforeIs | satellite-soft-labs/src/Database.cpp:202-324 | The kind that a reply finds is a function of the requests and the first table |
| SerialDatabase.GetAllAfterMiss | satellite-soft-labs/src/Database.cpp:233-250 | After a request for any record that is missing, any table is listed in full, as not found |
| SerialDatabase.OneRequest | satellite-soft-labs/src/Database.cpp:118-200 | What one request does to one record, read off its reply; every other record stays |
| SerialDatabase.StoredIs | satellite-soft-labs/src/Database.cpp:118-251 | In every serial execution the row of a record is what requests and replies alone say of it |
| SerialDatabase.GetAfterPost | satellite-soft-labs/src/Database.cpp:118-251 | A request for a record is answered with the fields of the latest successful post to it, or that was given its number, if no deletion followed |
| SerialDatabase.GetAfterDelete | satellite-soft-labs/src/Database.cpp:172-251 | After a deletion that no successful post has followed it is answered with not found |
| SerialDatabase.GetUnwritten | satellite-soft-labs/src/Database.cpp:202-251 | Without a write to the record it is answered from the first table |
| SerialDatabase.GetAllListsStored | satellite-soft-labs/src/Database.cpp:244-250 | A request for all records is answered with exactly the stored ones, each once |
| SerialDatabase.WritesSucceedExactly | satellite-soft-labs/src/Database.cpp:118-200 | A post or deletion is refused exactly when it is malformed, and succeeds exactly when it adds a record or meets a stored one |
| Caches.Cache.SetInvalid | satellite-soft-labs/include/Cache.hpp:34-40 | An invalid cache is empty in both forms; making it valid keeps its records |
| Caches.Cache.AddValue | satellite-soft-labs/include/Cache.hpp:43-47 | Both forms take the value, under any key; a key that is used again finds its latest value |
| Caches.Cache.FindValue | satellite-soft-labs/include/Cache.hpp:55-67 | Found if and only if the cache is valid and the map form has the key |
| Caches.ListingFinds | satellite-soft-labs/include/Cache.hpp:43-67 | The map form of a listing, under the identifiers of its records, finds exactly the rows |
| DatabaseService.Database.constructor | satellite-soft-labs/src/Database.cpp:64-74 | Empty queues and an invalid cache |
| DatabaseService.Database.QueueRequest | satellite-soft-labs/src/Database.cpp:253-264 | The queues stay paired, and the job is queued last |
| DatabaseService.Database.TakeRequest | satellite-soft-labs/src/Database.cpp:283-293 | The oldest job that has not been executed is taken, with its own connection |
| DatabaseService.Database.RenewCache | satellite-soft-labs/src/Database.cpp:209-230 | The cache is valid and equals the table in both forms |
| DatabaseService.Database.DoGetRequest | satellite-soft-labs/src/Database.cpp:202-251 | The reply answers the request on the current table, and a valid cache equals the table |
| DatabaseService.Database.DoPostRequest | satellite-soft-labs/src/Database.cpp:118-170 | The table is updated, with the effect that `OneRequest` states, the reply answers the request, and the cache is not left stale |
| DatabaseService.Database.DoDeleteRequest | satellite-soft-labs/src/Database.cpp:172-200 | The same for a deletion |
| DatabaseService.Database.ExecuteRequest | satellite-soft-labs/src/Database.cpp:295-318 | The job taken is executed and its reply handed to its own connection |
| DatabaseService.Database.Run | satellite-soft-labs/src/Database.cpp:118-324 | For every interleaving: how many jobs are executed, replies go to their own connections once, in the order of queueing, and are those of a serial execution on the table that all earlier writes have left |

## Left out

- Sockets, epoll, timerfd, signals and datagram decoding: foreign calls, modelled as steps or delivered messages only.
- Rounds of an election that overlap, a second round started from the waiting state, and packets of a master during a round.
- AvlTrees.AvlTree.Run: `avl_tree_purge`, the data pointers of nodes and the reuse of freed memory are not part of this model; a removed node that a wrong link leads to counts as still allocated.
- AvlTrees.AvlTree.Walk: walking over a link to a removed node, which the code has freed, is not part of this model.
- `avl_tree_remove_get_data`, which is `avl_tree_remove` with another result.
- Packets.RoundTrip: framing is stated for binary packets below 4 GiB, because the sender cuts larger sizes to 32 bits.
- Bracket pairs other than the default ones, and a failing allocation in the reader.
- DriverConnections.Connection.Run: a command index beyond the driver's commands, which the code refuses with an assertion, is taken to close the connection; what a handler finds behind the buffer is not modelled.
- Commands.EncodeCommand: the bytes behind a command whose arguments are cut are those of a new array, in the code whatever the buffer held.
- MasterSums.Master.UpdateSlave: the slaves are a sequence in the order of their first response, not the tree, of which only the contents matter here.
- Pearson.Hash: the result is the bit pattern of the hash, not its value as a signed number; `hash_update_pearson` is left out.
- `list_purge`, contents of vectors, the hash map, the console shell, HTTP handlers, JSON and SQL text: they would add easy members only or wrap foreign libraries.
- DatabaseService.Database.Run: query exceptions, other writers to the table, disconnecting and identifiers beyond an int are left out.
