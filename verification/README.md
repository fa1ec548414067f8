# Verified model of the dstore client's vector generator and diff

The dstore client in Rust is checked against golden vectors that a Go program, `vectorgen`,
writes. The generator carries exact copies of the client's scheduling rules and several
algorithms of its own. This project models those, together with the Rust diff that the client
prints, and proves what they promise for every input, every run and every reachable state.

- `Batches`, `Fetch`, `Rank`, `Tracker`: how the client batches puts, drains per-node fetch
  queues, ranks the owners of a key and reports progress.
- `Adversary`, `LineText`: the antiquicksort adversary whose frozen values repeat every
  comparison, and the random line texts of the diff vectors.
- `Words`, `Murmur`, `SplitMix`, `Cbor`: 64-bit arithmetic with explicit wrap-around, the Newton
  inverse and the inverse murmur3 finalizer, the splitmix64 stream, and a shortest-form CBOR
  writer.
- `Registry`, `Paths`: vector families that own disjoint subtrees and replace exactly those, and the
  rule for the paths they may own.
- `CaseTables`, `Frames`, `LogTime`: run-length case tables, the index of wire frames with
  aliases, and the log time header.
- `Labels`, `Traces`, `Search`, `Lcs`: the two-sided search for a common subsequence of lines, whose
  labels grow from both corners of the edit graph, and the repair of what it found when it stops
  early.
- `Distance`, `Limits`: why that search is optimal. Its labels reach exactly the points within their
  number of steps, so it finds a longest common subsequence whenever it meets before its limit; at
  the limit it keeps only matches near the ends.
- `Splices`, `Udiff`, `Hunks`, `Unified`, `Fewest`, `Misnumbered`: from there to byte edits, to whole-line
  edits, to hunks that patch one text into the other with the fewest changed lines, and two texts
  whose hunks are misnumbered.
- `Orders`, `Pdqsort`, `StableSort`: the two sorts that the diff uses, in place on an array, for every
  strict weak order.
- `Sorters`, `PdqTree`, `PdqSteps`, `PdqCases`: the same quicksort as a decision tree over positions,
  which the in-place one follows step by step, and the adversary's cases sorted by it.
- `Collections`, `Nodes`: sums over maps, small facts about sequences, and the node ids that the
  client modules share.

Words are integers below 2^64 and their wrap-around is written out. Texts are sequences of bytes.
Objects that the source updates in place are classes; loops are methods proved against
specification functions, and the lemmas are about those functions.

`dafny verify dfyconfig.toml` checks the whole project.

## Where code and promise differ

- The hunk numbers of the diff: when a hunk joins edits that have unchanged lines between them,
  the counter for the new side does not advance over those lines, so every later hunk starts too
  low on the `+` side (crates/udiff/src/unified.rs:91-95). The old side is always right, and
  patching by the old side always works. `Hunks.NumbersExact` proves when the `+` numbers are
  right, both ways; `Misnumbered.Witness` gives two texts whose diff has a wrong one.
- A fetch job that leaves a key behind should have had no room for it. `estSize` is negative for
  length fields of 2^63 and more, because Go's conversion wraps, and the sum with the next key can
  fall below the range of an int and wrap to a large number. `Fetch.RunObeysLimits` proves, over
  every run, that a job that left a key had no room for it if and only if the true sum with that key
  is one an int can hold; `Fetch.UnderflowLeavesRoom` gives two keys for which it is not. The cap of
  8 MiB holds for the true sum always.
- The diff search calls its result a longest common sequence (crates/udiff/src/lcs.rs:528-532). It is
  one whenever some edits with fewer than 100 deleted and inserted lines exist (`Search.Diff`), and
  then no diff has fewer changed lines (`Unified.Unified`). From 100 on the search stops at its limit of
  50 steps from either end and keeps only matches that near (`Search.EditGraph.TwoSided`). The bound is
  exact: for every limit from 3 on `Search.LimitMisses` gives two sequences that are apart by exactly
  twice the limit, 100 for the client, and whose longest common sequence it does not find.
- Put batches stay within their caps if and only if no byte sum of the greedy split wraps to one that
  fits (`Batches.ClientBatches`); sizes and caps up to half an int's range never do, and
  `Batches.SlipWitness` gives two records for which one does.
- The byte counts of a progress report are ints and can wrap. They are the bytes sent if and only if
  those are ints, for which it is enough, when no step sends a negative number, that all bytes
  together are one (`Tracker.ReportIsExact`). The total is the sum of the rows if and only if the
  bytes that the steps sent to each node, each as an int shows them, add up to an int
  (`Tracker.TotalIsSum`); `Tracker.TotalWraps` gives four steps for which they do not.
- Different times can have the same log header, because the first byte of a year wraps.
  `LogTime.HeadersEqual` proves when: the times differ only in the year, both years are at most 9999,
  they differ by a multiple of 256000, and they have the same sign or end in three zeros. Above the
  year -247000 no two do (`LogTime.HeaderInjective`), and that year has the header of the year 9000
  (`LogTime.HeaderCollides`).
- `vplModInverse` returns an inverse exactly for odd arguments; for even ones none exists.

## Model

| member | source | states |
|---|---|---|
| Adversary.PdqAdversary.constructor | tools/vectorgen/family_udiff.go:832-836 | the adversary starts with all values gas and the identity permutation |
| Adversary.PdqAdversary.Less | tools/vectorgen/family_udiff.go:796-814 | in place, it makes the transition of the adversary's state machine and answers by the values it then holds |
| Adversary.PdqAdversary.Swap | tools/vectorgen/family_udiff.go:816-819 | in place, it exchanges values and ids together and nothing else |
| Adversary.PdqAdversary.Run | tools/vectorgen/family_udiff.go:837 | any compare-and-swap algorithm, given as a decision tree, leaves the object in the state of its play |
| Adversary.AdversaryValues | tools/vectorgen/family_udiff.go:828-846 | each element's value is what it was frozen to, or n-1 minus that for len_desc |
| Adversary.ReadValues | tools/vectorgen/family_udiff.go:838-845 | reading the values back by id hits every element once, whatever the permutation |
| Adversary.PlayInv | tools/vectorgen/family_udiff.go:786-819 | every play keeps ids a permutation, each value that is not gas in use once and below nsolid, and the number of gas values in step with nsolid |
| Adversary.Settles | tools/vectorgen/family_udiff.go:796-819 | a solid value never changes again, so the final values foresee every earlier state |
| Adversary.AnswersAgree | tools/vectorgen/family_udiff.go:821-824 | every answer the adversary ever gave agrees with the final values |
| Adversary.Replay | tools/vectorgen/family_udiff.go:821-827 | for every algorithm, n and comparator that orders by the final values, sorting them as a fixed input gives the same answers and the same permutation, and compared elements end with different values |
| Adversary.ValuesInRange | tools/vectorgen/family_udiff.go:832-845 | if no position is compared with itself, the solid values are exactly 0 to nsolid-1, all below gas, and all values end below n |
| PdqTree.SortIsSound | crates/udiff/src/gosort.rs:32-37 | whatever the comparisons answer, even when they contradict each other, the quicksort ends, stays inside the array and never compares a position with itself |
| PdqSteps.TurnSteps | crates/udiff/src/gosort.rs:145-215 | one turn of the loop of the tree: the end, the equal elements skipped, or a partition, each from what the last part left |
| PdqSteps.DivideSteps | crates/udiff/src/gosort.rs:200-214 | after a partition the shorter side is sorted and the loop goes on with the other one |
| PdqCases.PdqRepeatsAdversary | tools/vectorgen/family_udiff.go:821-827 | the quicksort of a case built against it, under either comparator, makes every comparison of the adversary's run in the same order with the same answer, and ends with its permutation |
| PdqCases.SortCase | tools/vectorgen/family_udiff.go:848-904 | in place, such a case ends sorted and in the order of ids that the adversary was left with |
| Adversary.CaseRepeatsAdversary | tools/vectorgen/family_udiff.go:848-904 | the case's own comparators, len_desc and x_asc_len_desc, repeat every comparison and the final order of ids |
| SplitMix.Generator.Next | tools/vectorgen/util.go:16-22 | the state advances by the odd constant and the result is the mix of the new state |
| SplitMix.U64s | tools/vectorgen/util.go:36-43 | cell i of the array is output number i of the stream |
| SplitMix.SmData | tools/vectorgen/util.go:26-33 | n bytes, each the right byte of the right output, little-endian, so shorter data is a prefix of longer data |
| SplitMix.UnMixAfterMix | tools/vectorgen/util.go:18-21 | the mix has a left inverse |
| SplitMix.MixAfterUnMix | tools/vectorgen/util.go:18-21 | and the same inverse on the right, so it is a bijection of the 64-bit words |
| SplitMix.MixInjective | tools/vectorgen/util.go:18-21 | different states give different outputs |
| SplitMix.StreamPeriod | tools/vectorgen/util.go:16-22 | outputs i and j of one seed are equal if and only if i and j are equal modulo 2^64 |
| SplitMix.StreamCovers | tools/vectorgen/util.go:16-22 | every word is an output of every seed within 2^64 calls |
| SplitMix.DataDeterminesSeed | tools/vectorgen/util.go:26-33 | eight bytes of data determine the seed |
| Murmur.ModInverse | tools/vectorgen/family_view.go:357-363 | the loop's result times a is 1 modulo 2^64 if and only if a is odd |
| Murmur.NewtonDoubles | tools/vectorgen/family_view.go:359-361 | one Newton step takes an inverse modulo m to one modulo the square of m, as far as 2^64 |
| Murmur.NewtonCorrect | tools/vectorgen/family_view.go:358-362 | after i steps the low 3 times 2^i bits, at most 64, are right |
| Murmur.ComputeInvFmix64 | tools/vectorgen/family_view.go:366-373 | returns the only word that the finalizer takes to its argument |
| Murmur.InverseAfterFmix | tools/vectorgen/family_view.go:365-373 | undoing the murmur3 finalizer gives the word back |
| Murmur.FmixAfterInverse | crates/view/src/placement.rs:81-88 | finalizing an undone word gives it back, so both are bijections |
| Words.XorShiftInvolution | tools/vectorgen/family_view.go:365-367 | xor with a shift by 32 or more is its own inverse on words |
| Words.XorShiftInjective | tools/vectorgen/util.go:19-21 | xor with any positive shift loses nothing |
| Cbor.Writer.WriteHead | tools/vectorgen/family_view.go:484-500 | appends the head of (major, n) to the buffer |
| Cbor.Writer.Write | tools/vectorgen/family_view.go:502-517 | appends the encoding of an integer, array head, map head, byte string or text string |
| Cbor.HeadReads | tools/vectorgen/family_view.go:484-500 | a reader after section 3 of RFC 8949 recovers (major, n) and the length, whatever follows |
| Cbor.HeadsArePrefixFree | tools/vectorgen/family_view.go:484-500 | a head that is a prefix of another is that head |
| Cbor.HeadIsShortest | tools/vectorgen/family_view.go:484-500 | no byte sequence that reads as (major, n) is shorter, section 4.2.1 of RFC 8949 |
| Cbor.ItemReads | tools/vectorgen/family_view.go:502-517 | one written item is read back, whatever follows |
| Cbor.WritesAreRecovered | tools/vectorgen/family_view.go:502-517 | any sequence of writes is recovered from its bytes alone |
| Batches.Batches | tools/vectorgen/family_client.go:683-700 | the loop computes the greedy split with int additions |
| Batches.GreedySplits | tools/vectorgen/family_client.go:683-700 | with true sums, for all sizes, negative ones too: non-empty batches that concatenate to the input, each within both caps or a single record |
| Batches.BatchesAreFewest | tools/vectorgen/family_client.go:683-700 | with true sums, for sizes that are not negative, as record sizes are, no other split into consecutive batches within the caps has fewer batches |
| Batches.NegativeSizeBreaksIt | tools/vectorgen/family_client.go:687-695 | the condition on sizes is needed: with a negative one a split with fewer batches can exist |
| Batches.ClientBatches | tools/vectorgen/family_client.go:683-700 | for int sizes that are not negative, the client's batches are a valid split if and only if no sum of the greedy split wraps to one that fits, and then no valid split has fewer batches |
| Batches.SlipBreaks | tools/vectorgen/family_client.go:690-695 | after such a sum some batch is over its caps |
| Batches.SmallNeverSlips | tools/vectorgen/family_client.go:690-695 | sizes and byte caps up to half the range of an int never wrap that way |
| Batches.SlipWitness | tools/vectorgen/family_client.go:690-695 | a record of the largest size takes the next one into its batch, over the cap |
| Fetch.EstBounds | tools/vectorgen/family_client.go:833-835 | the estimate is at most header plus 64 KiB, and at least the header unless the length field reads as negative |
| Fetch.Accumulators.Best | tools/vectorgen/family_client.go:853-863 | the map loop is the choice function of its iteration order |
| Fetch.Accumulators.Pick | tools/vectorgen/family_client.go:852-880 | updates the map in place to what the pick leaves and hands out the job; nothing happens on an empty map |
| Fetch.PickIsGood | tools/vectorgen/family_client.go:852-866 | in every order: a job unless the map is empty, from a full accumulator if there is one, else from one with the most keys |
| Fetch.EveryGoodPickHappens | tools/vectorgen/family_client.go:855-863 | every such accumulator is picked in some order |
| Fetch.CheckOnePick | tools/vectorgen/family_client.go:957-971 | the counting loop accepts exactly the maps with one possible pick |
| Fetch.OrderIndependence | tools/vectorgen/family_client.go:852-880 | that check holds if and only if all orders give the same job and the same remaining map |
| Fetch.TakeIsGood | tools/vectorgen/family_client.go:867-872 | at least one key, at most 2048, within 8 MiB by the wrapped sum, and one more would break a limit or none is left |
| Fetch.TakeStep | tools/vectorgen/family_client.go:873-879 | the job and the rest are the old keys in order, the byte count stays the sum of estimates, other nodes are untouched, and an emptied node is gone |
| Fetch.RunIsShort | tools/vectorgen/family_client.go:852-880 | every run has at most as many jobs as there were keys, so draining ends |
| Fetch.RunConserves | tools/vectorgen/family_client.go:852-880 | in every run, per node, the jobs and what waits are the original keys in their order, each once |
| Fetch.RunObeysLimits | tools/vectorgen/family_client.go:827-880 | every job of every run has 1 to 2048 keys and at most 8 MiB by the true sum, whatever the length fields; it had no room for the next key of its node if and only if the true sum with that key does not fall below the range of an int, and always when length fields are below 2^63 |
| Fetch.UnderflowLeavesRoom | tools/vectorgen/family_client.go:833-872 | two keys, with length fields 2^63 and 2^63 + 2^24, of which one job takes only the first although the true sum has room for both |
| Fetch.Drain | tools/vectorgen/family_client.go:953-956 | picking until nothing is left empties the map and hands every node exactly its keys |
| Rank.RankOwners | tools/vectorgen/family_client.go:482-519 | best standing first by penalty, relay and round-trip class, and owners of one standing all kept in their given order |
| Rank.UniqueSort | tools/vectorgen/family_client.go:501-513 | two sorted arrangements of the same scored owners are the same |
| Rank.AnySortRanks | tools/vectorgen/family_client.go:501-518 | any correct sort, stable or not, gives a ranking |
| Rank.RankingIsUnique | tools/vectorgen/family_client.go:482-519 | order and the owners of each standing determine the list |
| Rank.RankAgain | tools/vectorgen/family_client.go:482-519 | ranking again changes nothing |
| Rank.RankThenDrop | tools/vectorgen/family_client.go:482-519 | dropping owners before or after ranking is the same |
| Tracker.Tracker.Update | tools/vectorgen/family_client.go:1418-1425 | one step in place and, with a callback, exactly one report of the new state after it |
| Tracker.Tracker.Do | tools/vectorgen/family_client.go:1373-1401 | each call changes in place exactly the counters it should |
| Tracker.Tracker.Enter | tools/vectorgen/family_client.go:1409-1416 | looking up a node creates it with zero counters and leaves known ones alone |
| Tracker.Tracker.Snapshot | tools/vectorgen/family_client.go:1427-1439 | rows strictly ascending by id, one per node, with that node's counters and path |
| Tracker.OneReport | tools/vectorgen/family_client.go:1427-1439 | the report does not depend on map order |
| Tracker.StepKeeps | tools/vectorgen/family_client.go:1373-1401 | every step of any upload keeps the counters equal to what is open |
| Tracker.RunKeeps | tools/vectorgen/family_client.go:1373-1401 | so does every interleaving |
| Tracker.RowsAddUp | tools/vectorgen/family_client.go:1376-1381 | the bytes of the rows add up to the bytes of the nodes |
| Tracker.EveryReport | tools/vectorgen/family_client.go:1361-1439 | in every interleaving every report has one row per node that an upload began to, with its open uploads, 0 <= awaiting <= in flight, and the bytes that the steps sent to that node; the total is the bytes sent in all, and the sum of the rows, each as an int shows it; when all uploads are done both counters are zero |
| Tracker.TotalIsSum | tools/vectorgen/family_client.go:1376-1381 | the total of a report equals the sum of its rows if and only if the bytes that the steps sent to each node, each wrapped to an int, add up to an int |
| Tracker.ReportIsExact | tools/vectorgen/family_client.go:1376-1381 | all byte counts of a report are the bytes sent if and only if these are ints, and then the total is the sum of the rows; without negative numbers, if and only if all bytes together are an int |
| Tracker.SentAddsUp | tools/vectorgen/family_client.go:1376-1381 | what the steps send to the nodes adds up to what they send in all |
| Tracker.TotalWraps | tools/vectorgen/family_client.go:1376-1381 | four steps after which the total of every report is the least int while its rows add up to one more than the greatest |
| Tracker.Play | tools/vectorgen/family_client.go:1373-1425 | playing any interleaving through the tracker object, the callback's i-th report is truthful about the steps up to step i, bytes included |
| Paths.GoodPathRule | tools/vectorgen/main.go:77-80 | a path passes all checks, with path.Clean as its documentation has it, if and only if its elements are neither empty nor dots and it has no backslash |
| Registry.RegisterKeeps | tools/vectorgen/main.go:66-100 | an accepted registration keeps all owned paths of all families disjoint and off the reserved paths |
| Registry.CommonFile | tools/vectorgen/main.go:103-105 | two paths that contain a common file overlap |
| Registry.CheckProduced | tools/vectorgen/main.go:195-216 | with disjoint owned paths, succeeds if and only if every file is owned and every owned path has a file |
| Registry.VectorGen.Register | tools/vectorgen/main.go:57-62 | adds the family exactly when the check accepts it |
| Registry.VectorGen.Regenerate | tools/vectorgen/main.go:159-191 | replaces the owned paths by the produced files, or changes nothing when generator or check fails |
| Registry.VectorGen.CheckNames | tools/vectorgen/main.go:135-144 | accepts exactly known names without repetition |
| Registry.VectorGen.FamilyNames | tools/vectorgen/main.go:108-115 | every registered name once, in ascending order |
| Registry.VectorGen.Run | tools/vectorgen/main.go:130-154 | takes all families by name when none is selected, refuses bad selections before touching the tree, and stops at the first failing family |
| Registry.RunElsewhere | tools/vectorgen/main.go:130-191 | a path that no selected family owns never changes |
| Registry.RunOwned | tools/vectorgen/main.go:130-191 | an owned path ends as its family produced it, whatever ran before or after |
| Registry.OrderDoesNotMatter | tools/vectorgen/main.go:130-191 | successful families give the same tree in any order |
| Registry.RunTwice | tools/vectorgen/main.go:130-191 | running again changes nothing |
| Registry.Promises | tools/vectorgen/main.go:48-54 | for any registry built by accepted registrations: any order, any number of times, the same tree, and reserved paths untouched |
| CaseTables.Flips | tools/vectorgen/family_text.go:477-487 | exactly the flips, ascending, and the predicate holds at r if and only if an odd number of them are at or below r |
| CaseTables.CaseRuns | tools/vectorgen/family_text.go:490-513 | proper runs, disjoint and ascending, that expand to exactly the mapped runes with their deltas, in order |
| CaseTables.AddRune | tools/vectorgen/family_text.go:497-510 | extending or appending a run adds exactly one rune to the expansion |
| CaseTables.TableComputes | tools/vectorgen/family_text.go:489-524 | looking a rune up in the runs computes the mapping: no run hits it if and only if it maps to itself, and otherwise one run does and its delta is right |
| Frames.Builder.Call | tools/vectorgen/family_wire.go:534-550 | an addition makes the transition of the state machine; after an error none does |
| Frames.Builder.Record | tools/vectorgen/family_wire.go:552-585 | in place: an alias on the case that holds the frame, or a new case and, unless decode-only, its index entry |
| Frames.ApplyKeeps | tools/vectorgen/family_wire.go:534-585 | every call keeps the index exact both ways and each added name once among names and aliases |
| Frames.Run | tools/vectorgen/family_wire.go:534-585 | so after any calls the index and the names are right |
| Frames.OneCasePerFrame | tools/vectorgen/family_wire.go:569-584 | no two cases that are not decode-only hold the same frame, across all three lists |
| Frames.CallsKeepPlaces | tools/vectorgen/family_wire.go:526-531 | later calls never move a case, so every stored list and index stays right |
| Frames.CheckNames | tools/vectorgen/family_wire.go:589-608 | succeeds if and only if all added names are distinct |
| LogTime.LogBuffer.Itoa | tools/vectorgen/family_gocompat_numtime.go:678-692 | for every int and width up to 20, never leaves the 20-byte array and appends as many bytes as asked for or needed, one per digit |
| LogTime.LogBuffer.Std | tools/vectorgen/family_gocompat_numtime.go:696-713 | appends date and time in their fixed layout, for negative years too |
| LogTime.PaddedValue | tools/vectorgen/family_gocompat_numtime.go:678-692 | the bytes of a number that is not negative read back as the number |
| LogTime.WideEnough | tools/vectorgen/family_gocompat_numtime.go:682-690 | the width used is always enough: decimal digits whose value is the number |
| LogTime.PaddedEqual | tools/vectorgen/family_gocompat_numtime.go:678-692 | for all ints and widths, two numbers get the same bytes if and only if they differ by a multiple of 256 times the power of ten of all but the first byte, and have the same sign or are multiples of that power |
| LogTime.HeaderLength | tools/vectorgen/family_gocompat_numtime.go:696-713 | 19 bytes if and only if the year is at most 9999 |
| LogTime.HeadersEqual | tools/vectorgen/family_gocompat_numtime.go:696-713 | for all times, two headers are equal if and only if the times differ at most in the year, and the years are the same or both at most 9999 and collide as above |
| LogTime.HeaderInjective | tools/vectorgen/family_gocompat_numtime.go:696-713 | so equal headers mean equal stamps, for every year above -247000 |
| LogTime.HeaderCollides | tools/vectorgen/family_gocompat_numtime.go:690-691 | the year -247000 has the header of the year 9000 |
| LineText.SplitLines | tools/vectorgen/family_udiff.go:145-161 | lines that concatenate to the text, newlines only at their ends, with the offset of every line and of the end |
| LineText.LinesAreUnique | crates/udiff/src/unified.rs:148-167 | a text has only one such cut, so a cut by bytes and a cut by runes are the same |
| LineText.CheckAlphabet | tools/vectorgen/family_udiff.go:211-220 | accepts exactly distinct lines with one newline, at the end |
| LineText.Render | tools/vectorgen/family_udiff.go:298-308 | the concatenation of the lines of the values |
| LineText.SplitAfterRender | tools/vectorgen/family_udiff.go:298-308 | cutting a rendered text recovers the lines written |
| LineText.SplitAfterStrip | tools/vectorgen/family_udiff.go:311-316 | after stripping, the last line is shorter by its newline, or gone when it was only that |
| LineText.RenderInjective | tools/vectorgen/family_udiff.go:298-308 | different values render to different texts |
| LineText.DrawValues | tools/vectorgen/family_udiff.go:245-262 | draws consecutive outputs of the stream, reduced for an alphabet |
| LineText.DrawEdit | tools/vectorgen/family_udiff.go:265-284 | one edit: three draws, then the inserted values, and the splice of them |
| LineText.Generate | tools/vectorgen/family_udiff.go:243-296 | both texts are functions of the recipe, with the newline stripped where asked |
| LineText.EditedIsClose | tools/vectorgen/family_udiff.go:263-284 | old and new values share a subsequence of at least lines minus edits times max_run |
| Orders.RotateStable | crates/udiff/src/gosort.rs:537-554 | blocks of which every element of one belongs before every element of the other change places without changing the order of equal elements |
| Orders.OneStableSort | crates/udiff/src/gosort.rs:39-43 | for every strict weak order, two sorted arrangements that keep equal elements in the same order are the same |
| Pdqsort.InsertionSort | crates/udiff/src/gosort.rs:90-101 | the range is sorted, nothing else moves, equal elements keep their order, and a sorted range stays as it is |
| Pdqsort.SiftDown | crates/udiff/src/gosort.rs:103-121 | from a heap that is right below its root, a heap that is right from the root on |
| Pdqsort.HeapTop | crates/udiff/src/gosort.rs:123-143 | no element of a heap belongs behind its first |
| Pdqsort.HeapSort | crates/udiff/src/gosort.rs:123-143 | the range is sorted and nothing else moves |
| Pdqsort.Partition | crates/udiff/src/gosort.rs:217-254 | the pivot ends with what belongs before it on one side and what does not on the other; a range reported as partitioned has only had its pivot moved |
| Pdqsort.PartitionEqual | crates/udiff/src/gosort.rs:256-278 | elements that do not belong behind the pivot come first |
| Pdqsort.PartialInsertionSort | crates/udiff/src/gosort.rs:280-325 | never leaves its range although it shifts left without looking for its start, because no element belongs before the one in front; when it says so the range is sorted, and it says so of every sorted range |
| Pdqsort.ReverseRange | crates/udiff/src/gosort.rs:406-415 | the elements of the range in reverse |
| Pdqsort.BreakPatterns | crates/udiff/src/gosort.rs:327-345 | only rearranges the range: the random index wraps into it |
| Pdqsort.Median | crates/udiff/src/gosort.rs:387-399 | the median of three, and no swap counted when they are in order |
| Pdqsort.ChoosePivot | crates/udiff/src/gosort.rs:347-376 | a pivot inside the range, and a sorted range is taken for one |
| Pdqsort.AroundEqual | crates/udiff/src/gosort.rs:192-198 | elements equal to what lies before the range can be left behind as done |
| Pdqsort.Pdqsort | crates/udiff/src/gosort.rs:145-215 | for every strict weak order, range and limit: if no element of the range belongs before the one in front of it, the range is sorted and nothing else moves; comparison by comparison and swap by swap it is the run of the decision tree |
| Pdqsort.Slice | crates/udiff/src/gosort.rs:32-37 | for every strict weak order, the same elements in order; what is sorted stays as it is; equal elements end where the decision tree for that length leaves them |
| StableSort.Rotate | crates/udiff/src/gosort.rs:537-554 | the two blocks change places, by swaps of the shorter one |
| StableSort.FindCut | crates/udiff/src/gosort.rs:511-524 | the binary search ends where the second block's part for the left half belongs before the rest of the first, and not further |
| StableSort.CutSplits | crates/udiff/src/gosort.rs:511-527 | after the rotation each half is two sorted blocks and nothing in the right half belongs into the left |
| StableSort.SymMerge | crates/udiff/src/gosort.rs:455-535 | two sorted neighbouring blocks become one, equal elements in their order, nothing else moves |
| StableSort.SliceStable | crates/udiff/src/gosort.rs:39-43 | for every strict weak order, the same elements in order, equal ones as they came |
| StableSort.IsSorted | crates/udiff/src/gosort.rs:45-56 | looking at neighbours decides whether all are in order |
| Lcs.Overlap | crates/udiff/src/lcs.rs:604-649 | what is left is a piece of the proposed diagonal on the stated side of the existing one, and a diagonal that does not conflict comes back whole |
| Lcs.Fit | crates/udiff/src/lcs.rs:574-586 | what is kept fits beside every diagonal kept before |
| Lcs.SortDiags | crates/udiff/src/lcs.rs:542-548 | compatible diagonals, sorted by that order with the in-place sort, are a common subsequence of the same size |
| Lcs.Fix | crates/udiff/src/lcs.rs:565-591 | from any matching diagonals a common subsequence made of pieces of them, with one of the longest whole; diagonals without conflict all stay |
| Lcs.ToDiffs | crates/udiff/src/lcs.rs:78-92 | replacements that make b of a, touch nothing a diagonal matches, cost exactly what is not matched, and have something left between them |
| Labels.Label.Set | crates/udiff/src/lcs.rs:706-715 | writes one label, keeps every other row, and keeps the triangle's shape |
| Labels.RowIsTame | crates/udiff/src/lcs.rs:342-364 | growing a row keeps this: a label outside the rectangle has a neighbour that is outside by one step less, so rows leave it only at their ends |
| Labels.ShortOrAtCorner | crates/udiff/src/lcs.rs:335-365 | a grown row that reaches the line through the corner of the rectangle has a label at the corner |
| Labels.ForwardShort | crates/udiff/src/lcs.rs:220-248 | a forward row at the corner would have met one of the two backward rows next to it, so rows that have not met are short of it |
| Labels.BackwardShort | crates/udiff/src/lcs.rs:220-248 | the same for a backward row at the origin |
| Labels.MeetInside | crates/udiff/src/lcs.rs:229-245 | where the searches first meet, if no label from there on is special, the backward label lies inside the rectangle |
| Traces.CommonPrefixLen | crates/udiff/src/lcs.rs:762-769 | the longest common prefix |
| Traces.CommonSuffixLen | crates/udiff/src/lcs.rs:772-779 | the longest common suffix |
| Traces.PrependCommon | crates/udiff/src/lcs.rs:653-664 | one more match at the front, joined to the first diagonal when adjacent, keeps a common subsequence |
| Traces.AppendCommon | crates/udiff/src/lcs.rs:668-678 | the same at the back |
| Traces.InnerEntry | crates/udiff/src/lcs.rs:353-362 | the further of two looks, looked at again, is a right label: the end of a run of matches one step from a neighbour, beyond both neighbours |
| Traces.BackOnWay | crates/udiff/src/lcs.rs:122-135 | from any point on the way to a label a round of forwardlcs goes to a point on the way, nearer, along a match or to a neighbour |
| Traces.OnwardOnWay | crates/udiff/src/lcs.rs:179-192 | the same for backwardlcs |
| Traces.GatherNCollected | crates/udiff/src/lcs.rs:119-138 | after any number of rounds, what forwardlcs has collected is a common subsequence between where it is and where it started |
| Traces.GatherOnNCollected | crates/udiff/src/lcs.rs:176-194 | the same for backwardlcs |
| Traces.GatherNSize | crates/udiff/src/lcs.rs:119-138 | every round of forwardlcs is one step to a row less or one match, so the rows pay for what is not matched |
| Distance.MostSteps | crates/udiff/src/lcs.rs:528-532 | the most matches on a way to a point change by at most one per step |
| Distance.CommonWithin | crates/udiff/src/lcs.rs:528-532 | no common subsequence has more matches than the best way |
| Distance.EditsCost | crates/udiff/src/lcs.rs:77-92 | no replacements that make b of a delete and insert less than the distance |
| Distance.LabelNear | crates/udiff/src/lcs.rs:151-154 | every label of row d, inside the rectangle or not, is within d steps of the origin |
| Distance.NextFurthest | crates/udiff/src/lcs.rs:342-364 | if no point of the rectangle within d steps lies beyond row d, none within d + 1 lies beyond row d + 1 |
| Distance.BackFurthest | crates/udiff/src/lcs.rs:472-485 | the same for backward rows |
| Distance.ApartIsFurther | crates/udiff/src/lcs.rs:220-248 | rows from both ends that have not met: the ends are further apart than both rows together |
| Limits.SpotNear | crates/udiff/src/lcs.rs:119-138 | every point of a trace back from row d is within d steps of the origin |
| Limits.SpotNearBack | crates/udiff/src/lcs.rs:176-194 | every point of a backward trace is that near the far corner |
| Limits.PiecesNear | crates/udiff/src/lcs.rs:522-523 | what is put together from two such ways, one from each end, starts or ends that near |
| Limits.LeaderHasMost | crates/udiff/src/lcs.rs:366-381 | the label that leads its row ends a way that matches as many elements as any within its number of steps from the origin |
| Limits.MissesThird | crates/udiff/src/lcs.rs:488-523 | for every limit from 3 on, two sequences exactly twice the limit apart: no common subsequence put together from two ways of up to the limit is a longest one |
| Search.EditGraph.LookForward | crates/udiff/src/lcs.rs:141-148 | goes along matches, as far as they go inside the rectangle |
| Search.EditGraph.LookBackward | crates/udiff/src/lcs.rs:197-204 | the same downwards |
| Search.EditGraph.ForwardRow | crates/udiff/src/lcs.rs:342-364 | all labels of the next row are right and have grown from the row before; a search that stops at the corner stops exactly there |
| Search.EditGraph.BackwardRow | crates/udiff/src/lcs.rs:472-485 | all backward labels of the next row are right and have grown from the row before |
| Search.EditGraph.ForwardLcs | crates/udiff/src/lcs.rs:119-138 | tracing a label of row d back ends at the origin with a common subsequence up to the label that leaves at most d elements unmatched and whose diagonals start within d steps of the origin |
| Search.EditGraph.BackwardLcs | crates/udiff/src/lcs.rs:176-194 | tracing a backward label ends at the far corner with a common subsequence from the label on that leaves at most d elements unmatched and whose diagonals end within d steps of the corner |
| Search.EditGraph.TwoDone | crates/udiff/src/lcs.rs:220-248 | none exactly when no forward label has come as far as the backward one on its diagonal; otherwise a special diagonal, or the first where they meet when none is special |
| Search.EditGraph.PlanReady | crates/udiff/src/lcs.rs:251-332 | whichever case applies, both ways exist and the forward one ends where the backward one starts or earlier, or a new search has a rectangle inside the graph; the steps are at most those of both rows |
| Search.EditGraph.MeetIsNear | crates/udiff/src/lcs.rs:259-264 | where the searches meet there is a way of df steps to the backward label |
| Search.EditGraph.TwoLcs | crates/udiff/src/lcs.rs:251-332 | in every case a common subsequence that leaves at most df + db elements unmatched |
| Search.EditGraph.Forward | crates/udiff/src/lcs.rs:335-381 | a common subsequence inside the rectangle, and one on a shortest way to its corner if the limit allows |
| Search.EditGraph.BestForward | crates/udiff/src/lcs.rs:366-381 | at the limit some label is inside the rectangle, so there is one to choose and no panic, and the one chosen leads its row |
| Search.EditGraph.TwoSided | crates/udiff/src/lcs.rs:438-524 | for all sequences and limits the search ends, without panic, with a common subsequence; it leaves as few elements unmatched as any way if that is less than twice the limit, and else is put together from two ways of up to the limit, one from each end, each with as many matches as any such way |
| Search.Compute | crates/udiff/src/lcs.rs:35-60 | for all sequences and limits the replacements make b of a and spare a common subsequence, and cost what it does not match; there are none exactly when the sequences are equal; if some replacements cost less than twice the limit, these are the cheapest and the subsequence is a longest one |
| Search.Diff | crates/udiff/src/lcs.rs:25-32 | the same with the client's limit: shortest and longest whenever fewer than 100 deleted and inserted elements suffice |
| Search.LimitMisses | crates/udiff/src/lcs.rs:488-523 | for every limit from 3 on, the diff of two sequences that are exactly twice the limit apart costs more than that, so the bound of the search is exact |
| Udiff.SortWorks | crates/udiff/src/diff.rs:67-80 | the sort orders by (start, end), and edits of one place stay, in their order |
| Udiff.SortIsUnique | crates/udiff/src/diff.rs:67-80 | any list with these two properties is that list, so any stable sort gives it |
| Udiff.SortCopy | crates/udiff/src/diff.rs:43-45 | the in-place stable sort of a copy gives that list |
| Udiff.Validate | crates/udiff/src/diff.rs:37-65 | succeeds if and only if the sorted edits are in bounds and do not overlap, and then gives the exact size of the result; otherwise the error says what is wrong with the first edit that fails |
| Udiff.ExpandWhole | crates/udiff/src/diff.rs:124-154 | an expanded edit replaces whole lines by whole lines and stays within the lines it touched |
| Udiff.LineEdits | crates/udiff/src/diff.rs:84-121 | whole-line edits with the same result as the given ones, each no wider than the lines of one run of edits that share lines; whole-line edits with whole lines between them stay as they are |
| Hunks.AddEqualLines | crates/udiff/src/unified.rs:170-189 | appends the lines of the range that exist, and counts them |
| Hunks.Change | crates/udiff/src/unified.rs:118-134 | the deleted lines, then the inserted ones |
| Hunks.Approach | crates/udiff/src/unified.rs:89-115 | extending, joining or opening a hunk patches up to the edit, and the new-side counter lags by the joined lines |
| Hunks.ToHunks | crates/udiff/src/unified.rs:74-141 | patching the old lines with the hunks succeeds and gives what the edits give; the hunks delete and insert as many lines as the edits; one hunk per edit that is first or too far from the one before, from its context to the context behind the last edit it joins |
| Hunks.NumbersExact | crates/udiff/src/unified.rs:91-111 | all new-side numbers are right if and only if no joined unchanged lines come before a later hunk |
| Fewest.PatchCost | crates/udiff/src/unified.rs:44-72 | hunks that patch one list of lines into another change at least as many lines as the two are apart |
| Misnumbered.ReplacesDiffering | crates/udiff/src/diff.rs:19-33 | for all two texts with equally many lines, where no line of the old one is found in the new one but in its place: if fewer than 50 lines differ, the diff deletes exactly those, and every edit writes as many lines as it deletes |
| Misnumbered.AlwaysMisnumbered | crates/udiff/src/unified.rs:91-111 | for the letters A to X, a line each, and the same with the 1st, 3rd and 21st small, no hunks that describe the diff are numbered right |
| Misnumbered.Witness | crates/udiff/src/unified.rs:11-24 | the diff of these two texts patches one into the other and has a wrong number on the new side |
| Unified.Lines | crates/udiff/src/diff.rs:19-33 | for all two texts, byte edits at line offsets that make the new text of the old one and touch no line of a common subsequence; none exactly for equal texts; the line edits behind them are the shortest whenever fewer than 100 lines suffice |
| Unified.DiffSettled | crates/udiff/src/diff.rs:86-98 | the byte edits between two texts replace whole lines, with whole lines between them, so nothing is expanded or merged and the line numbers are those of the line edits |
| Unified.SameApply | crates/udiff/src/diff.rs:24-32 | line edits and the byte edits at their offsets do the same |
| Unified.CutAt | crates/udiff/src/unified.rs:83-84 | the newlines before a line start count the lines before it |
| Unified.EndAt | crates/udiff/src/unified.rs:84-87 | the same for an edit's end, where the end of an unterminated text counts as a newline |
| Unified.Translate | crates/udiff/src/unified.rs:81-87 | the line numbers of whole-line edits are valid, and applying them to the lines gives the lines of the edited text |
| Unified.ToUnified | crates/udiff/src/unified.rs:29-42 | hunks if and only if the edits can be applied; they patch the lines of the content into exactly the lines of the result, start and end where the contexts say, and are numbered right exactly when the condition of NumbersExact holds |
| Unified.Unified | crates/udiff/src/unified.rs:11-24 | for all two texts the hunks patch the lines of one into exactly the lines of the other, with three lines of context; there are none exactly when the texts are equal; no hunks that make the same change have fewer changed lines, if any have fewer than 100 |

## Left out

- Search.EditGraph.TwoSided: which results beyond the limit still are longest is not characterised; they depend on how the two partial ways overlap.
- Search.EditGraph.Forward: the lower corner of the rectangle, which is the origin in every search, is not a field.
- Lcs.Fix: which of several longest diagonals comes first, which depends on how the sort leaves equal ones, is not characterised.
- Pdqsort.Slice: the number of comparisons is not bounded, and for comparisons that are no strict weak order only what PdqTree.SortIsSound says is proved.
- Hunks.ToHunks: contexts so large that twice their number wraps a machine integer are not modelled.
- Batches.ClientBatches: negative sizes, which a sizer does not return, are left to the greedy split with true sums.
- Tracker.Tracker.Do: the counts of open and awaiting uploads are unbounded, and the mutex is modelled by making each update one step.
- CaseTables.CaseRuns: the largest rune is a parameter below 2^31-1 instead of the Unicode constant.
- Registry.VectorGen.Regenerate: generators are fixed outcomes that do not read the tree, and file operations succeed once generator and check have; a failure halfway through delete and copy is not modelled, nor are conflicts between a file and a directory of the same name.
- Frames.Builder.Record: a message is its JSON form, and decoding is a function of the frame; reply extras and JSON are not modelled.
- Cbor.Writer.Write: raw hex pieces and the error field of the writer are not modelled.
- The coin comparators of the sort cases, whose answers are not a function of the elements, and the other value patterns.
- The text of the diff: file headers, hunk headers and the no-newline marker.
- Error texts, JSON output and the literal case tables of the families.
- The Rust transport, wire codec, placement ranking, worktree, ticket, discovery and command line crates, which mostly call libraries or hold finite tables.
- Hashes, signatures and compression; keys are opaque values with a length field.
