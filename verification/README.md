# Sundog, modelled and proved in Dafny

A Dafny model of the parts of Sundog whose correctness does not show on the page: the
set-reconciliation sketch, the hybrid logical clock, the leave hand-off, the gossip observer, the
ownership count, the source scanner and the lens's windowed control pipeline. Each is modelled with
the branches, constants and edge cases of the code, and the claims are about all inputs and all runs.

`dafny verify dfyconfig.toml` checks everything.

| files | part |
|---|---|
| `Words`, `Options`, `Sequences` | machine arithmetic, optional values, sequences as sets |
| `SketchCell`, `Sketch`, `SketchSums`, `SketchPeel`, `SketchCore`, `SketchLimits`, `Iblt` | the sketch |
| `Hlc`, `HlcNetwork`, `HlcMachine` | the clock and networks of clocks |
| `HandOff` | the leave hand-off |
| `Observe`, `GossipReader`, `GossipRun` | the observer |
| `Ownership` | the ownership count |
| `CfgGate`, `Utf8`, `Lexer`, `LexerFacts`, `LexerLiterals`, `LexerSpans`, `LexerClean` | the source scanner |
| `Window` | the control pipeline |

## The main results

**Sketch.** Cells are a commutative group (counts wrap modulo 2^32, the other fields are XORs), so the
sketch of a set does not depend on insertion order and subtracting two sketches leaves exactly the
symmetric difference. The core of a difference is its unique largest subset with no element alone in
a cell. If no part of the difference makes a cell pass the purity test unless one element is alone in
it (`CollisionFree`), then whatever order cells are taken in, peeling ends after at most one pop per cell
and three per differing element, what is left is the core, and it decodes, to exactly the two one-sided
differences, if and only if the core is empty (`PeelDecodesTheDifference`). The core is empty if and
only if the elements can be ordered so that each has a cell to itself among those after it, the cells
being those the placement hashes give; for two elements, if and only if some partition places them
apart. `CollisionFree` is exactly
the condition under which no peel is ever fooled, and fingerprints of one bit each meet it for any
number of elements. The module's documentation calls a decode "never wrong"; the code makes it so up
to hash coincidences, and the model says which. A peel whose pops are not fooled (`HonestPeel`) still
stops on the core and decodes exactly when the core cancels out of every cell, so it is wrong exactly
when a non-empty core does (`WrongExactlyWhenTheCoreCancels`). Both kinds of coincidence have an
example (`CollisionsCanInventAnElement`, `CollisionsCanHideADifference`). With no hypothesis at all a
decode re-encodes to its input cell for cell, and on cells that no two sets leave the loop need not end
(`PeelNeedNotEnd`); that the loop ends is proved for differences of sets on honest runs, and no
condition on raw cells equivalent to it is given.

**Clock.** A network of any number of clocks with arbitrary physical readings, where any earlier
stamp may be received any number of times by anyone or never: happens-before implies a smaller stamp,
no two events share a stamp, wall time is exactly the highest reading in the causal past, the logical
counter is exactly the length of the longest same-millisecond causal chain, and a node that bounds
what it observes is never carried further ahead than the bound. The counter is 32-bit in the code:
clocks that wrap return the same stamps and refusals exactly in the runs with no causal chain of more
than 2^32 events within one millisecond (2^32 - 1 at time 0, where clocks start), so in every run of
fewer than 2^32 events.

**Hand-off.** For every sequence of rounds the loop against a co-owner ends and leaves exactly what no
completed round matched; which rounds it runs, when each starts, and when and why it ends are settled
by the world alone (`Ran`, `RanIsUnique`). Sharing gives each group at least an equal part of the budget, whatever the
budget and whenever each group ends, exactly if the number of groups fits 32 bits.

**Scanner.** On the text of any `cfg` predicate, with any white space in it, the test-gating check
answers exactly its rule on predicate trees. The rule is sound for what predicates mean, and on
predicates without `not`, empty `any` or space before a parenthesis it is exact. A text has
one cut into code and literals, each literal running from where one starts in the source to its end;
lexing blanks exactly the literals and the listed spaces and keeps every other byte. It keeps UTF-8
valid, lengths and newlines, leaves no comment or literal behind, and is idempotent.

**Observer.** The two memo tables stand for the whole history of reads: a memoised read answers what
one that re-parses everything would. A dead entry nobody has published is reported if and only if
every read over at least the settle window showed it dead with the same heartbeat. Over a whole run a
member is shown if and only if some read listed it live or settled it, and every read since has listed
it; a read that misses it makes a later dead entry count as still joining. A departure once shown as
`Left` is final while it stays listed.

**Pipeline.** In every interleaving permits are conserved and lines are written once, in order, until a
call fails. A call in progress can move, or waits while the other end can, except exactly when failed
calls have lost the whole window; then only a close ends its wait, and such a run exists.

## How the code is modelled

- Hash functions (`check`, `mix`), the gossip parser (`parse_peer`, `is_departing`, `parse_cache_modes`) and the computed ownership
  view are parameters, so every claim is for all of them. A machine word the sketch XORs is the set of
  its one bits. The sketch's elements carry their version as three such words.
- Clock readings, round outcomes and durations, liveness answers, gossip and interleavings are
  inputs; a claim for all of them is a claim for every environment. Time is in whole nanoseconds.
- `Iblt.Peel` takes a bound on the loop's turns as a ghost argument, since the loop need not end on
  arbitrary cells; its result is then that of the step function run to the end.
- The hand-off's `timeout_at` drops a round that would end past the deadline and lets one that ends
  at it finish. The time the code spends between awaits is part of the environment; the claims that
  need it to be zero say so (`Prompt`).
- In the observer, `Peer` keeps the fields that name a member and one value for the rest.
- A depth counter of `requires_test` that would go below zero, which panics in a debug build, is the
  outcome `Underflow`.

## Model

| member | source | states |
|---|---|---|
| `SketchCell.AddAssoc` | sundog/src/sketch.rs:231-245 | folding is associative under wrapping counts and XOR: with `AddComm`, `AddZero` and `OppositesCancel`, cells form a commutative group |
| `SketchCell.OppositesCancel` | sundog/src/sketch.rs:252-256 | an element inserted on both sides leaves a cell empty |
| `SketchCell.MinusAdd` | sundog/src/sketch.rs:263-284 | subtracting a sketch is adding its elements with the other sign |
| `Sketch.CellIndex` | sundog/src/sketch.rs:75-81 | a placement lands inside its own partition's slice |
| `Sketch.LocationIs` | sundog/src/sketch.rs:225-227 | an element takes, in each partition, the cell of that partition its own mix of the fingerprint gives modulo the length |
| `SketchSums.SumRemove` | sundog/src/sketch.rs:231-245 | what a set leaves in a cell does not depend on the order of its elements |
| `SketchSums.DifferenceHoldsSymmetricDifference` | sundog/src/sketch.rs:252-284 | the difference of two sets' sketches is the signed sum over the symmetric difference, whatever the insertion orders |
| `SketchPeel.StepKeeps` | sundog/src/sketch.rs:311-338 | each turn keeps: cells hold exactly the remaining elements, both outputs are one-sided and without duplicates, every pure cell is queued; each turn lowers pops left, and no stuck set loses an element |
| `SketchPeel.RunKeeps` | sundog/src/sketch.rs:307-338 | the same over a whole run in any order, and enough turns empty the queue |
| `SketchPeel.Halted` | sundog/src/sketch.rs:311-347 | with the queue empty no remaining element is alone in any cell, and the cells are all empty if and only if the remaining elements cancel |
| `SketchPeel.OnlyNothingCancels` | sundog/src/sketch.rs:340-344 | with collision-free hashes only the empty set leaves every cell empty |
| `SketchPeel.PeelEnds` | sundog/src/sketch.rs:307-338 | the queue is empty after at most cells + 3 x differing elements pops, in any order |
| `SketchPeel.PeelIsExact` | sundog/src/sketch.rs:285-348 | a peel run to the end, no pop fooled, leaves no pure cell; what it found is one-sided and without duplicates; the remainder is the largest stuck subset; it decodes if and only if that subset cancels out of every cell, and has found the two one-sided differences if and only if it is empty |
| `SketchPeel.WrongExactlyWhenTheCoreCancels` | sundog/src/sketch.rs:20-24 | a decode is wrong if and only if a non-empty core cancels out of every cell, and right if and only if the core is empty |
| `SketchPeel.OrderDoesNotMatter` | sundog/src/sketch.rs:307-347 | two peels of the same sets in any insertion and queue orders agree on the outcome and on the elements found |
| `SketchPeel.CollisionFreeIsHonest` | sundog/src/sketch.rs:111-117 | hashes that tell every part of the difference apart make every run honest |
| `SketchPeel.CollisionFreeExactly` | sundog/src/sketch.rs:111-117 | hashes are collision-free on a set if and only if no peel, in any order, of any two sets that differ within it is fooled |
| `SketchPeel.PeelDecodesTheDifference` | sundog/src/sketch.rs:285-348 | from the hashes and the sets alone, in any order: the queue empties within the bound, the remainder is the core, and it decodes if and only if the core is empty, to exactly the two one-sided differences, each element once |
| `SketchPeel.OneBitEachIsCollisionFree` | sundog/src/sketch.rs:59-73 | one-bit fingerprints that differ within a set are collision-free on it, whatever its size and placement |
| `SketchCore.OccupiesExactly` | sundog/src/sketch.rs:13-18 | an element is in exactly three cells, one for each partition, in the arithmetic of its hashes |
| `SketchCore.CoreIsEmptyExactly` | sundog/src/sketch.rs:36-40 | a core is empty if and only if the elements have an order in which each is alone in a cell among itself and those after it |
| `SketchCore.PairCore` | sundog/src/sketch.rs:13-18 | two elements have an empty core if and only if their mixes differ modulo the length in some partition |
| `SketchCore.PairDecodes` | sundog/src/sketch.rs:301-348 | so a one-for-one difference decodes, to those two elements, if and only if some partition places them apart |
| `SketchLimits.StepConserves` | sundog/src/sketch.rs:311-338 | for any cells, one turn keeps current cells plus what was peeled |
| `SketchLimits.RunConserves` | sundog/src/sketch.rs:301-348 | for any cells, at every point the input is the current cells plus what was peeled |
| `SketchLimits.DecodeReencodes` | sundog/src/sketch.rs:301-348 | for any cells, a decode re-encodes to the input cell for cell |
| `SketchLimits.ThreePopsReturn` | sundog/src/sketch.rs:311-338 | from an element in only one of its cells, three pops return the same cells and queue |
| `SketchLimits.PeelNeedNotEnd` | sundog/src/sketch.rs:307-338 | for every shape and element there are cells on which the queue never empties |
| `SketchLimits.OneElementDecodes` | sundog/src/sketch.rs:301-348 | a difference of one element always decodes, whatever the hashes |
| `SketchLimits.CollisionsCanHideADifference` | sundog/src/sketch.rs:20-24 | colliding hashes can make two different sets decode as equal |
| `SketchLimits.ACoreCanCancel` | sundog/src/sketch.rs:20-24 | what that decode misses is a non-empty core that cancels out of every cell |
| `SketchLimits.CollisionsCanInventAnElement` | sundog/src/sketch.rs:20-24 | colliding hashes can make a decode report an element neither side holds |
| `IbltClass.Iblt.New` | sundog/src/sketch.rs:189-195 | a new sketch has three equal partitions, never empty, and holds nothing |
| `IbltClass.Iblt.FromCells` | sundog/src/sketch.rs:202-215 | cells off the wire are kept; the sketch is well formed exactly for a positive multiple of three |
| `IbltClass.Iblt.Apply` | sundog/src/sketch.rs:231-245 | folds the element into its three cells in place; a malformed sketch is left alone |
| `IbltClass.Iblt.Insert` | sundog/src/sketch.rs:248-250 | inserts one element |
| `IbltClass.Iblt.Subtract` | sundog/src/sketch.rs:263-284 | the cell-wise difference, refused exactly when this sketch is malformed or the lengths differ |
| `IbltClass.Iblt.TakeOut` | sundog/src/sketch.rs:321-332 | takes an element out of its three cells and queues those that turn pure |
| `IbltClass.Iblt.Peel` | sundog/src/sketch.rs:301-348 | the loop computes the outcome of the step function run first in, first out; a malformed sketch is undecodable |
| `IbltClass.PeelAgainst` | sundog/src/cluster/anti_entropy.rs:1285-1303 | with collision-free hashes, sketching the local bucket, subtracting the received one and peeling gives the exact difference if and only if its core is empty, and else a refusal |
| `Hlc.HlcClock.constructor` | sundog/src/hlc.rs:40-49 | a clock starts at the epoch |
| `Hlc.HlcClock.Now` | sundog/src/hlc.rs:58-71 | the local rule, past the last stamp and never behind the reading |
| `Hlc.HlcClock.Observe` | sundog/src/hlc.rs:78-95 | the receive rule, past the last stamp and the remote one |
| `Hlc.HlcClock.ObserveBounded` | sundog/src/hlc.rs:103-131 | merges a stamp if and only if its wall time is at most the reading plus the bound, as unbounded integers, and refuses any other, untouched |
| `Hlc.Lead` | sundog/src/hlc.rs:115-122 | the lead is what the reading lacks of the last wall time, and 0 if it lacks nothing |
| `HlcNetwork.ClockKeepsUp` | sundog/src/hlc.rs:58-95 | in every run a node's clock is never behind a stamp it returned |
| `HlcNetwork.BeforeIsLess` | sundog/src/hlc.rs:17-25 | in every run happens-before implies a strictly smaller stamp |
| `HlcNetwork.StampsAreUnique` | sundog/src/hlc.rs:13-25 | no two events of a run share a stamp |
| `HlcNetwork.EventsAreOrdered` | sundog/src/hlc.rs:13-25 | of any two events of a run exactly one has the smaller stamp, never the one that happened later |
| `HlcNetwork.WallIsMaxReading` | sundog/src/hlc.rs:58-113 | wall time is the highest physical reading over the causal past, refused stamps contributing nothing |
| `HlcNetwork.LogicalCountsCauses` | sundog/src/hlc.rs:60-64 | the logical counter is at most the number of causes with the same wall time |
| `HlcNetwork.ChainFitsCounter` | sundog/src/hlc.rs:58-95 | no causal chain within one wall time is longer than its last stamp's counter says |
| `HlcNetwork.CounterHasChain` | sundog/src/hlc.rs:58-95 | some chain is exactly that long, so the counter is the length of the longest one |
| `HlcNetwork.LogicalIsBounded` | sundog/src/hlc.rs:80-88 | the counter of event number j + 1 is at most j + 1 |
| `HlcNetwork.AcceptedExactly` | sundog/src/hlc.rs:103-131 | in every run a bounded receipt is accepted if and only if its message was and is at most the bound ahead of the reading, as unbounded integers |
| `HlcNetwork.SkewIsContained` | sundog/src/hlc.rs:103-131 | a bounded node's clock stays within the saturating bound of its own highest reading, however fast others run |
| `HlcNetwork.LeadIsBounded` | sundog/src/hlc.rs:115-122 | its lead over any reading not below that highest one is at most the bound |
| `HlcMachine.NarrowIsExact` | sundog/src/hlc.rs:60-88 | clocks with a wrapping 32-bit counter have the same stamps and refusals as unbounded ones if and only if every unbounded counter fits 32 bits |
| `HlcMachine.ExactUnlessLongChain` | sundog/src/hlc.rs:60-88 | and so if and only if no causal chain within one wall time needs a counter past u32::MAX |
| `HlcMachine.ShortRunIsExact` | sundog/src/hlc.rs:60-88 | which holds of every run of fewer than 2^32 events |
| `HlcMachine.NarrowBreaksAt2To32` | sundog/src/hlc.rs:60-64 | at 2^32 events a stopped physical clock makes the counter wrap and the stamp fall |
| `HandOff.GroupDeadline` | sundog/src/cluster.rs:770-778 | a group's deadline is not before now, nor past the overall one |
| `HandOff.ShareIsEqual` | sundog/src/cluster.rs:770-778 | a share is the remaining time divided by the groups left, to the nanosecond |
| `HandOff.ShareAtTheEdges` | sundog/src/cluster.rs:765-778 | past the overall deadline a share is nothing; the last group, or a count of zero, gets everything |
| `HandOff.ShareIsFair` | sundog/src/cluster.rs:765-778 | a group entitled to q gets at least q and leaves at least q for each group after it |
| `HandOff.FairExactlyIfCountFits` | sundog/src/cluster.rs:765-778 | a number of groups is each given at least an equal part of every budget, whenever each ends, if and only if the number is at most u32::MAX |
| `HandOff.UnfairIfCountDoesNotFit` | sundog/src/cluster.rs:775-778 | for every larger number there are a budget and ends that leave some group less |
| `HandOff.HandOffWithPeer` | sundog/src/cluster.rs:853-921 | for every world: each round run started within the share, ran over the parts not yet matched and ended by the deadline, and a round that fits is run; the result is the input in order less what completed rounds matched; the loop ends when a round would not fit, on a match, on a dead co-owner of a failed round or on the third completed round, at the instant and for the reason the world settles |
| `HandOff.RanIsUnique` | sundog/src/cluster.rs:835-921 | no two runs against one world differ in result, reason, end or rounds |
| `HandOff.HandOffInShares` | sundog/src/cluster.rs:929-971 | each group starts when the one before it is through, is skipped if and only if that is at or past the overall deadline, and else runs over its own parts in a share of the time left; with prompt timers no group is skipped if there is any budget, each of fewer than 2^32 groups gets at least an equal part of the whole, and the last gets what is left |
| `Observe.SortSorts` | sundog/src/observe.rs:510-511 | published members are ascending by node, then incarnation, and are the observed ones |
| `Observe.FindNext` | sundog/src/observe.rs:489-512 | a member is in the next snapshot exactly if the read lists it, with the status and time the rule gives for its first entry |
| `Observe.Publish` | sundog/src/observe.rs:517-532 | publishing only changes keeps the snapshot equal to the latest reading |
| `Observe.RereadPublishesNothing` | sundog/src/observe.rs:514-532 | re-reading the same observations later publishes nothing if the entries for each member agree on its status, and at a new instant only if they do |
| `Observe.PublishedStep` | sundog/src/observe.rs:492-508 | one read's effect on a member depends on that member's own entry alone, whose record and caches it publishes |
| `Observe.LeftIsFinal` | sundog/src/observe.rs:483-503 | once `Left`, a listed member stays `Left` exactly as long as its departure stays gossiped |
| `Observe.SinceIsLastChange` | sundog/src/observe.rs:504-507 | `since` is the read at which the published status last changed |
| `GossipReader.Reader.constructor` | sundog/src/observe.rs:559-570 | an empty memo stands for no history |
| `GossipReader.Reader.Parse` | sundog/src/observe.rs:575-589 | a memoised parse equals a fresh one when equal versions mean equal keys |
| `GossipReader.Reader.ReadEntry` | sundog/src/observe.rs:613-638 | one entry's report, anonymity and dead-table update |
| `GossipReader.Reader.Read` | sundog/src/observe.rs:601-642 | the memoised read, whatever it lists and however often, equals one computed from the whole history, and the memo then stands for the longer history |
| `GossipReader.NotedMeans` | sundog/src/observe.rs:550-558 | what a read leaves in a dead record: untouched if no entry shows the participant dead, else the last heartbeat shown, at its old instant only if no entry showed another |
| `GossipRun.DeadSinceMeans` | sundog/src/observe.rs:550-566 | the dead table holds the longest stretch of reads up to now that show the entry dead with one heartbeat |
| `GossipRun.DeadIsReportedOnceSettled` | sundog/src/observe.rs:541-548 | an unpublished dead entry is reported if and only if every read over at least the settle window, up to that entry, showed it dead with the same heartbeat |
| `GossipRun.PublishedIsReported` | sundog/src/observe.rs:629-637 | a member the snapshot in force holds is reported by a read that lists it, live or dead, with the status the entry gives |
| `GossipRun.ShownAs` | sundog/src/observe.rs:456-509 | a shown member is `Down` if dead, `Left` if dead with a gossiped departure, `Live` if live, `Departing` if live with one, but `Left` if it was `Left`; its record and caches are as its keys parse |
| `GossipRun.AnonymousAreCounted` | sundog/src/observe.rs:596-618 | a snapshot counts the live participants of the latest read, other than the observer, that are no node |
| `GossipRun.ShownExactly` | sundog/src/observe.rs:601-642 | after a read a member is in the snapshot if and only if the read lists it, and lists it live, or finds it in the snapshot in force, or has settled it |
| `GossipRun.ShownSince` | sundog/src/observe.rs:591-642 | over a whole run a member is shown if and only if some read listed it live or settled it and every read since has listed it |
| `GossipRun.ShownAgain` | sundog/src/observe.rs:591-642 | a member once shown is shown later if and only if every read between listed it, or one listed it live or settled it anew and every read since listed it |
| `GossipRun.OneMissedReadWithholds` | sundog/src/observe.rs:639-640 | a shown member that one read misses is withheld when next listed dead |
| `GossipRun.RunObserver` | sundog/src/observe.rs:645-677 | reading and publishing in turn with the memo in hand keeps the snapshot the whole history stands for |
| `GossipRun.DepartureIsFinal` | sundog/src/observe.rs:483-503 | over whole runs of gossip a member shown as `Left` stays `Left` while its departure is listed |
| `GossipRun.ShownWhileGossiped` | sundog/src/observe.rs:591-643 | a member once shown stays shown while gossip lists it |
| `Ownership.SortedUnique` | sundog/src/observe.rs:349-351 | the eligible members, ascending, each once |
| `Ownership.BinarySearch` | sundog/src/observe.rs:366 | finds a member's place, or shows it has none |
| `Ownership.OwnedIsCount` | sundog/src/observe.rs:363-370 | a count is the number of parts whose owners list the node |
| `Ownership.CountAll` | sundog/src/observe.rs:363-370 | the counting loop gives each member the number of parts listing it |
| `Ownership.SharesSum` | sundog/src/observe.rs:446-447 | the counts sum to the number of parts times min(owners, eligible) |
| `Ownership.Shares` | sundog/src/observe.rs:349-377 | nothing when nobody is eligible, else each member's count, summing to 65,536 x min(owners, eligible) |
| `Ownership.PartsOwnedBy` | sundog/src/observe.rs:449-453 | the number of parts a node owns, 0 off the eligible set |
| `CfgGate.ReadsTheTree` | sundog/src/layers.rs:237-285 | on the text of any predicate tree, with any white space around arguments, before parentheses and after trailing commas, the check answers exactly the rule on trees, with no depth underflow |
| `CfgGate.TrimCuts` | sundog/src/layers.rs:238 | trimming takes off exactly the white space at both ends |
| `CfgGate.AsciiSpaces` | sundog/src/layers.rs:238 | which of the ASCII characters that is |
| `CfgGate.SpacedOutPredicate` | sundog/src/layers.rs:234-285 | an everyday `all` is accepted and the same `any` is not, character by character |
| `CfgGate.GatedIsSound` | sundog/src/layers.rs:234-236 | a predicate the rule accepts holds only in configurations that set `test` |
| `CfgGate.GatedIsExact` | sundog/src/layers.rs:234-236 | on predicates without `not`, empty `any` or a gap before a parenthesis, the rule accepts exactly those that hold only under `test` |
| `CfgGate.GatedMentionsTest` | sundog/src/layers.rs:276-281 | a predicate the rule accepts mentions `test`; an `any` of nothing is refused |
| `CfgGate.RefusedGroups` | sundog/src/layers.rs:271-284 | the text of a `not`, or of a group with space before its parenthesis, is refused |
| `CfgGate.AlikeKeepsGated` | sundog/src/layers.rs:234-236 | the rule depends on which options are `test` and on no other text of an option |
| `CfgGate.RequiresTestIsSound` | sundog/src/layers.rs:234-285 | a predicate whose text, its string values and comments blanked, the check accepts holds only under `test` |
| `CfgGate.SplitFailsOnDips` | sundog/src/layers.rs:251-268 | the depth counter underflows exactly on text whose parentheses dip below their start |
| `CfgGate.ClosesExactly` | sundog/src/layers.rs:239-250 | parentheses pair up if and only if they are as many each way and never dip below their start |
| `CfgGate.UnpairedIsRefused` | sundog/src/layers.rs:236-250 | a predicate whose parentheses do not pair up is refused |
| `CfgGate.PairedTextCanUnderflow` | sundog/src/layers.rs:251-275 | a text whose parentheses pair up can still underflow it |
| `CfgGate.Paired` | sundog/src/layers.rs:239-250 | the counting loop decides whether the parentheses pair up |
| `CfgGate.CutArgs` | sundog/src/layers.rs:251-268 | the cutting loop gives the non-blank arguments |
| `CfgGate.CheckRequiresTest` | sundog/src/layers.rs:237-285 | the check as run, short-circuits included, computes the same verdict |
| `Utf8.ValidCut` | sundog/src/layers.rs:161-162 | valid UTF-8 can be cut before any byte that is not a continuation |
| `Utf8.ValidExactly` | sundog/src/layers.rs:161-162 | text is valid UTF-8 if and only if it encodes a sequence of scalar values |
| `Lexer.LiteralEnd` | sundog/src/layers.rs:87-149 | a literal's end lies past its start, within the text, and at a character boundary |
| `LexerLiterals.LiteralStarts` | sundog/src/layers.rs:87-154 | in valid text a literal is found at an index if and only if a comment, string, raw string or character literal starts there |
| `LexerLiterals.LineCommentEnds` | sundog/src/layers.rs:91-93 | a line comment ends before the first newline, or with the text |
| `LexerLiterals.BlockCommentEnds` | sundog/src/layers.rs:94-111 | a block comment ends past the first close that balances its opens, or with the text |
| `LexerLiterals.StringEnds` | sundog/src/layers.rs:112-118 | a string ends past its first quote that is not escaped, or with the text |
| `LexerLiterals.RawStringEnds` | sundog/src/layers.rs:119-132 | a raw string ends past the first quote followed by as many hashes as opened it, or with the text |
| `LexerLiterals.EscapedCharEnds` | sundog/src/layers.rs:133-137 | an escaped character literal ends past its closing apostrophe |
| `LexerLiterals.PlainCharEnds` | sundog/src/layers.rs:138-146 | an apostrophe starts a literal if and only if one whole character and another apostrophe follow; a lifetime stays |
| `LexerLiterals.SpacesAre` | sundog/src/layers.rs:172 | the blanked spaces are U+0085, U+200E, U+200F, U+2028 and U+2029 |
| `LexerFacts.StringClosesUnescaped` | sundog/src/layers.rs:112-118 | a string ends at its first quote with an even number of backslashes before it |
| `LexerFacts.RawEndIsFirst` | sundog/src/layers.rs:119-132 | a raw string ends at the first quote followed by its hashes, or with the text |
| `LexerFacts.MatchBoundaries` | sundog/src/layers.rs:172-179 | the encoding of one character occurs in valid text only where that character does |
| `LexerFacts.LexKeepsShape` | sundog/src/layers.rs:156-181 | valid UTF-8 in, valid UTF-8 of the same length out, each byte kept or blanked, newlines where they were |
| `LexerSpans.LiteralSame` | sundog/src/layers.rs:161-171 | blanking what came before changes no literal that follows |
| `LexerSpans.CutIsUnique` | sundog/src/layers.rs:161-171 | a text has one cut into code and literals |
| `LexerSpans.LexedExactly` | sundog/src/layers.rs:156-181 | byte for byte: inside a literal of the source's cut, or a listed space outside them, a byte becomes a space unless it is a newline; every other byte is kept |
| `LexerClean.LexLeavesNothing` | sundog/src/layers.rs:156-181 | in the result no comment or literal starts anywhere and no non-ASCII space occurs, and lexing it again gives it back |
| `LexerFacts.Blank` | sundog/src/layers.rs:77-83 | overwrites a range in place with spaces, newlines kept |
| `LexerFacts.ScanBlock` | sundog/src/layers.rs:94-111 | the nested-comment scan |
| `LexerFacts.ScanString` | sundog/src/layers.rs:112-118 | the string scan, escapes stepped over whole |
| `LexerFacts.ScanLiteral` | sundog/src/layers.rs:87-149 | the scan for a literal's end, branch by branch |
| `LexerFacts.BlankPattern` | sundog/src/layers.rs:172-179 | blanks every occurrence of one character |
| `LexerFacts.Lex` | sundog/src/layers.rs:161-181 | the in-place lexer computes the specified text and keeps it valid |
| `Window.EveryRunKeeps` | sundog-lens/src/control.rs:117-148 | in every interleaving permits are conserved, at most 16 lines are out, reply k answers line k and replies are read in order, `errors` counts the replies that are `err` or start with it and a space, and until a call fails every line is written once, in order |
| `Window.WaitingMeansFullWindow` | sundog-lens/src/control.rs:129-132 | a sender waiting with no permit has an empty batch and the whole window out, less the permits failed calls lost |
| `Window.NeverStuck` | sundog-lens/src/control.rs:117-139 | a call in progress can move, or waits; and while it waits a reply can be read or answered if and only if failed calls have lost less than the window |
| `Window.LostWindowHangs` | sundog-lens/src/control.rs:117-148 | a flush that fails with a full window in its batch makes the next call wait until a close |
| `Window.WaitingIsFreed` | sundog-lens/src/control.rs:182-199 | reading a reply frees a waiting sender, and so does a close |
| `Window.ClosedWritesNothing` | sundog-lens/src/control.rs:71-73 | after a close every run writes at most the lines taken before it, in order |

## Left out

- xxh3, the partition salts and the decode rate at the rated capacity: the hashes are parameters, and the rate is a probability.
- A condition on raw cells equivalent to the peel loop ending: only the failing family and the sufficient condition are given.
- Options with a parenthesis or comma in them: the text of an option is taken as it is once the lexer has blanked string values. One written back by `restore_attribute_paths` may hold a comma, and is not covered.
- What anti-entropy does with a decode or a refusal, and the wire form of cells.
- Persisted node ids and restarts: a node of the clock network keeps its clock. Stamps minted by a merge rather than returned by a clock are not received in it.
- Two gossip participants that parse to the same node and incarnation in one read: the results about a member's status over runs of gossip (`PublishedIsReported`, `DepartureIsFinal`, `ShownWhileGossiped`) take each read to list a member once. Those about whether it is shown, and those about publishing alone, do not.
- The ranking that computes an ownership view, and which members are eligible: the view is any that gives each part min(owners, eligible) distinct eligible members.
- How gossip state is parsed, the settle window's length, and when the observer's task reads.
- Hand-off logging, and the collection of groups before the first round.
- `code_only`, `restore_attribute_paths` and the rest of the source scan: its rules for where an item ends are deliberately approximate.
- The bytes of the control connection: a line is written or not, and replies are lines.
- The storage engine, conflict resolvers, the cache, the wire codec, discovery, transport and the lens's screens.
