# Advent of Code 2018, days 1 to 3, in Dafny

This project models the three puzzle solvers of the `aoc-2018` repository:

- **Fabric claims** (`src/bin/c3.rs`, module `Claims` in `claims.dfy`). A claim
  `#id @ x,y: wxh` is a rectangle of square-inch cells on the fabric.
  - `find_double_occupancy` marks every claim on a flat 1000 x 1000
    occupancy grid and counts the cells holding more than one claim.
  - `check_overlap` is a separating-axis test on the claims' inclusive corners.
  - `find_solo_claim` tests every claim against every claim of a different id
    and returns the id of the last claim that overlaps none of them.
- **Box ids** (`src/bin/c2.rs`, module `BoxIds` in `box_ids.dfy`).
  - `checksum` multiplies the number of ids having some letter exactly three
    times by the number having some letter exactly twice. It counts letters
    in 26 slots.
  - `checksum_ht` computes the same checksum, counting characters in an
    ordered map.
  - `find_id_pair` sorts the ids and compares neighbours, looking for two
    ids that differ in exactly one position.
- **Frequency calibration** (`src/bin/c1.rs`, module `Frequency` in
  `frequency.dfy`).
  - Part 1 is the sum of the adjustments.
  - `find_repeat` applies the adjustments over and over, keeping the set of
    frequencies seen, until a running total repeats.

`options.dfy` holds the `Option` type the three modules share.

The Rust code keeps its state in loop variables, a `Vec` grid, a fixed array,
a `BTreeMap` and a `HashSet`. The model does the same:

- The occupancy grid and the 26 letter slots are Dafny arrays, updated in place.
- The character map and the set of frequencies seen are `map` and `set`
  variables that the loops reassign.
- Each such method is proved against a specification function:
  - `DoubledCells`: the cells covered by two distinct claims;
  - `SoloIdBelow`: the last claim that overlaps no claim of another id;
  - `BoxChecksum`: the checksum, defined through character multiplicities;
  - `FirstPairIndex`: the first neighbouring sorted pair one apart;
  - `FirstRepeatStep`: the first step whose running total was seen before.
- Lemmas then state what these specification functions mean.

Two behaviours of the code are easy to misread. The model keeps both:

- `find_solo_claim` does not return early. Each surviving claim overwrites
  the answer, so the last solo claim is reported (`src/bin/c3.rs:62-69`,
  `Claims.LastSoloClaimWins`).
- The occupancy grid is fixed at 1000 x 1000 cells (`src/bin/c3.rs:22-23`),
  whatever the extent of the claims.

## Model

| member | source | states |
|---|---|---|
| Claims.CheckOverlap | src/bin/c3.rs:43-54 | The separating-axis test on inclusive corners. For claims with at least one cell, it reports an overlap exactly when some cell lies in both claims. |
| Claims.OverlapSymmetric | src/bin/c3.rs:43-54 | The overlap test gives the same answer with its arguments swapped. |
| Claims.AbuttingClaimsDoNotOverlap | src/bin/c3.rs:52-53 | Claims that only touch along an edge (one ends where the other starts) do not overlap. |
| Claims.ZeroSizedClaimOverlaps | src/bin/c3.rs:44-53 | A zero-sized claim inside another claim shares no cell with it, yet the test reports an overlap. The cell meaning therefore needs non-empty claims. |
| Claims.OverlapExamples | src/bin/c3.rs:141-152 | The documented checks: claims 1 and 2 overlap in both argument orders, 1 and 3 do not, and 570 and 845 do. |
| Claims.MarkClaim | src/bin/c3.rs:26-30 | Adding one claim raises the grid slot of every cell the claim covers by one and leaves every other slot unchanged. |
| Claims.CountOverfull | src/bin/c3.rs:33-39 | The count is the number of grid slots holding more than one claim. |
| Claims.FindDoubleOccupancy | src/bin/c3.rs:21-40 | The result is the number of grid cells covered by two or more claims of the list. |
| Claims.CoverageAtLeastTwo | src/bin/c3.rs:25-31 | A cell is counted twice or more exactly when two distinct positions of the list cover it. |
| Claims.CoverageAtLeastOne | src/bin/c3.rs:25-31 | A cell is counted at least once exactly when some position of the list covers it. |
| Claims.FewClaimsNoDoubles | src/bin/c3.rs:21-40 | An empty or one-claim list leaves no doubly claimed cell. |
| Claims.OverlapLeavesDoubledCell | src/bin/c3.rs:21-54 | Two overlapping non-empty claims inside the grid leave at least one doubly claimed cell. |
| Claims.NoDoublesIffNoOverlaps | src/bin/c3.rs:21-54 | For non-empty claims inside the grid, the occupancy count is zero exactly when no two distinct positions overlap, in both directions. |
| Claims.DoubleOccupancyExample | src/bin/c3.rs:117-127 | The documented three claims leave exactly four doubly claimed cells. |
| Claims.SoloIdBelowIsLastSolo | src/bin/c3.rs:60-71 | The answer is absent exactly when no claim is solo. Otherwise it is the id of a solo claim after which no claim is solo. |
| Claims.FindSoloClaim | src/bin/c3.rs:60-71 | The nested search returns the id of the last claim that overlaps no claim of a different id, or None when there is none. |
| Claims.SoloClaimEmpty | src/bin/c3.rs:61-70 | With no claims the answer is None. |
| Claims.SoloClaimSingle | src/bin/c3.rs:62-67 | A single claim is always reported. |
| Claims.SoloClaimExample | src/bin/c3.rs:129-139 | In the documented three claims the solo claim is 3. |
| Claims.SharedIdHidesOverlap | src/bin/c3.rs:64 | Claims are skipped by id, not by position, so two overlapping claims with one id are both solo. |
| Claims.LastSoloClaimWins | src/bin/c3.rs:67 | When two claims are solo the later one is reported. |
| BoxIds.Letter | src/bin/c2.rs:20 | Slot k counts the lower-case letter whose offset from 'a' is k. |
| BoxIds.CountWithRepeat | src/bin/c2.rs:24-34 | Each id adds at most one to a tally, so a tally never exceeds the number of ids. |
| BoxIds.SlotsDecideRepeat | src/bin/c2.rs:26-34 | For a lower-case id, some slot holds n exactly when some letter occurs exactly n times. |
| BoxIds.CountLetters | src/bin/c2.rs:17-22 | Slot k of the new table holds the number of occurrences of the k-th letter in the id. |
| BoxIds.ScanSlots | src/bin/c2.rs:24-36 | The scan with early exit raises the twice flag exactly when some slot holds 2, and the thrice flag exactly when some slot holds 3. |
| BoxIds.SlotFlags | src/bin/c2.rs:17-36 | The flags say whether some letter of the id occurs exactly twice and whether some letter occurs exactly three times. |
| BoxIds.Checksum | src/bin/c2.rs:13-39 | The array version returns the number of ids with a letter occurring three times, times the number with a letter occurring twice. |
| BoxIds.CountChars | src/bin/c2.rs:46-51 | The map has one entry per character of the id, holding that character's number of occurrences. |
| BoxIds.TableDecidesRepeat | src/bin/c2.rs:53-65 | Some map entry holds n exactly when some character occurs exactly n times. |
| BoxIds.LeastKeyExists | src/bin/c2.rs:55 | Every non-empty key set has a least key, so the entries can be visited in ascending key order. |
| BoxIds.ScanCounts | src/bin/c2.rs:53-65 | The ascending scan with early exit raises the twice flag exactly when some entry holds 2, and the thrice flag exactly when some entry holds 3. |
| BoxIds.TableFlags | src/bin/c2.rs:46-65 | The flags say whether some character occurs exactly twice and whether some character occurs exactly three times. |
| BoxIds.ChecksumTable | src/bin/c2.rs:42-68 | The map version computes the same checksum for any characters, so it agrees with the array version on lower-case ids. |
| BoxIds.NoRepeatByLetters | src/bin/c2.rs:26-34 | No character occurs exactly n times once no letter occurring in the id does. |
| BoxIds.ExampleNoRepeat | src/bin/c2.rs:141 | abcdef has no letter twice or three times. |
| BoxIds.ExampleBothRepeats | src/bin/c2.rs:142 | bababc has a letter twice (a) and a letter three times (b). |
| BoxIds.ExampleTwiceB | src/bin/c2.rs:143 | abbcde has a letter twice but none three times. |
| BoxIds.ExampleThriceC | src/bin/c2.rs:144 | abcccd has a letter three times but none twice. |
| BoxIds.ExampleTwiceAD | src/bin/c2.rs:145 | aabcdd has a letter twice but none three times. |
| BoxIds.ExampleTwiceE | src/bin/c2.rs:146 | abcdee has a letter twice but none three times. |
| BoxIds.ExampleThriceAB | src/bin/c2.rs:147 | ababab has a letter three times but none twice. |
| BoxIds.ExampleTwiceTally | src/bin/c2.rs:139-159 | With the example's pattern of repeats, four ids have a letter exactly twice. |
| BoxIds.ExampleThriceTally | src/bin/c2.rs:139-159 | With the example's pattern of repeats, three ids have a letter exactly three times. |
| BoxIds.ChecksumExample | src/bin/c2.rs:139-159 | The documented seven ids have checksum 12, the value both tests expect from `checksum` and `checksum_ht`. |
| BoxIds.LexLeTotal | src/bin/c2.rs:77 | The string order compares any two ids. |
| BoxIds.LexLeAntisymmetric | src/bin/c2.rs:77 | Ids ordered both ways are equal. |
| BoxIds.LexLeTransitive | src/bin/c2.rs:77 | The string order is transitive. |
| BoxIds.Insert | src/bin/c2.rs:77 | Insertion adds exactly one element and keeps a sorted list sorted. |
| BoxIds.SortIds | src/bin/c2.rs:76-77 | The sorted copy is a permutation of the ids in ascending string order. |
| BoxIds.SortedPermutationUnique | src/bin/c2.rs:77 | Two sorted permutations of the same ids are equal, so the unstable sort's output is determined. |
| BoxIds.TwoMismatches | src/bin/c2.rs:86-88 | Two distinct mismatching positions rule out "exactly one difference". |
| BoxIds.DiffersInOnePlace | src/bin/c2.rs:83-94 | The zipped walk with early exit at a second mismatch answers whether the ids differ in exactly one position of their common length. |
| BoxIds.FindIdPair | src/bin/c2.rs:75-102 | As written: the result is the first neighbouring pair (idx - 1, idx) of the sorted ids that is one apart, with idx below len - 1. The last neighbouring pair is never compared. |
| BoxIds.FindIdPairAllNeighbours | src/bin/c2.rs:75-102 | Corrected: the result is the first neighbouring pair of the sorted ids that is one apart, over all neighbouring pairs. An empty list gives None. |
| BoxIds.ReportedPairFacts | src/bin/c2.rs:94-97 | A reported pair consists of two input ids, smaller first, that differ in exactly one position. |
| BoxIds.ShortListsReportNothing | src/bin/c2.rs:78 | With one or two ids the search as written compares nothing and reports None. |
| BoxIds.LastPairOnlyFoundWhenAllNeighboursCompared | src/bin/c2.rs:78 | When only the last neighbouring pair is one apart, the search as written reports None and the corrected search reports that pair. |
| BoxIds.TwoIdsOneApartMissed | src/bin/c2.rs:78 | For the ids ab and ac, which differ in one position, the search as written finds nothing and the corrected search finds them. |
| BoxIds.ExampleOrder | src/bin/c2.rs:161-172 | The documented ids in ascending order are abcde, axcye, fghij, fguij, klmno, pqrst, wvxyz. |
| BoxIds.IdPairExample | src/bin/c2.rs:161-172 | For the documented ids in any input order, the search reports fghij and fguij. |
| BoxIds.NeighbourSearchMissesPair | src/bin/c2.rs:73-78 | Comparing only neighbours can miss a pair: axaa and ayaa are one apart, but axbb sorts between them, so even the corrected search reports None. |
| Frequency.AdjustmentInPass | src/bin/c1.rs:14-15 | Step pass * len + i of the repeated walk applies the i-th adjustment. |
| Frequency.FirstRepeatStep | src/bin/c1.rs:14-22 | The result is absent exactly when no step in the range repeats an earlier total. Otherwise it is a repeating step with no repeat before it. |
| Frequency.NewTotal | src/bin/c1.rs:17-20 | A total not seen before grows the visited set by exactly one and keeps all visited totals distinct. |
| Frequency.FindRepeat | src/bin/c1.rs:10-24 | Within the given number of passes, the search returns the first running total equal to an earlier one (the start 0 included), or None when there is none. |
| Frequency.TotalIsPrefixSum | src/bin/c1.rs:15-16 | After the first n adjustments the frequency is their sum. |
| Frequency.OnePassIsSum | src/bin/c1.rs:46 | Part 1, the plain sum, is the frequency after one full pass. |
| Frequency.TotalPeriodic | src/bin/c1.rs:14-22 | Each further pass shifts every running total by the sum of the adjustments. |
| Frequency.ZeroSumRepeatsInFirstPass | src/bin/c1.rs:14-22 | When the adjustments sum to 0, a repeat is found within the first pass. |
| Frequency.OnesNeverRepeat | src/bin/c1.rs:14-22 | With the single adjustment +1 no total ever repeats, so the source's loop never ends. |
| Frequency.ExampleTotals | src/bin/c1.rs:51-53 | The running totals of the documented example for its first 13 steps. |
| Frequency.RepeatExample | src/bin/c1.rs:51-53 | In the documented example 14 is the first total reached twice, at step 13. |

## Left out

- Command-line parsing, file reading, the regular-expression parsing of claims and the printing in `main` are not modelled (`src/bin/c1.rs:26-48`, `src/bin/c2.rs:104-132`, `src/bin/c3.rs:73-110`). The model starts from parsed lists.
- The debug print of each solo claim (`src/bin/c3.rs:68`) and the derived `Debug` of `Rect` are output only, and are not modelled.
- `isize` and `usize` arithmetic is modelled with unbounded integers. Overflow of a running frequency, a tally or a claim corner is not modelled.
- Frequency.FindRepeat: the source loops until a total repeats, which need not ever happen (see `Frequency.OnesNeverRepeat`). The model bounds the search by a number of passes and returns None when no repeat occurs within them. The two agree whenever a repeat occurs within that bound.
- Claims.FindDoubleOccupancy: requires every claim to lie inside the 1000 x 1000 grid. The source silently wraps a cell past column 999 into the next row, and panics past the end of the grid. Neither behaviour is modelled.
- Claims.CheckOverlap: requires `xpos + xdim >= 1` and `ypos + ydim >= 1`. The source computes `pos + dim - 1` in unsigned arithmetic, which underflows whenever `xpos` and `xdim` are both 0, or `ypos` and `ydim` are both 0 (for example the claim `0,5: 0x3`).
- Claims.FindSoloClaim: requires the same corner condition of every claim that is compared with a claim of another id, for the same reason.
- BoxIds.Checksum: requires lower-case ASCII ids. The source computes `b - b'a'` on bytes, which underflows for smaller bytes and indexes past the 26 slots for larger ones. The model walks characters; for lower-case ASCII, characters and bytes coincide.
- BoxIds.ScanCounts: the `BTreeMap` is modelled as a Dafny `map`, visited in ascending key order by repeatedly taking the least remaining key. Its internal tree is not modelled.
- BoxIds.SortIds: `sort_unstable` is replaced by an insertion sort under the same string order. `BoxIds.SortedPermutationUnique` shows that every correct sort yields the same list. The order compares characters, which agrees with Rust's byte order on UTF-8 strings.
- `Frequency.Sum` is the plain definition of the iterator sum at `src/bin/c1.rs:46` and has no row of its own: a contract on it could only restate its body. `Frequency.OnePassIsSum` ties it to the running totals of the repeat search.

## Findings

| source | as written | input that shows it | evidently intended | confidence | as-written member | corrected member |
|---|---|---|---|---|---|---|
| src/bin/c2.rs:78 | The loop runs over `1..(len - 1)`, so the last neighbouring pair of the sorted ids (len - 2, len - 1) is never compared. An empty list makes `len - 1` underflow. | `["ab", "ac"]`: the two ids differ in one position, but the loop range `1..1` is empty, so the result is None. | Compare every neighbouring pair (`1..len`) and return None for an empty list. | not executed | BoxIds.FindIdPair (counterexample BoxIds.TwoIdsOneApartMissed) | BoxIds.FindIdPairAllNeighbours (with BoxIds.LastPairOnlyFoundWhenAllNeighboursCompared) |
