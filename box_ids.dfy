/**
 * Box ids (day 2): a checksum over a list of ids, computed once with a
 * 26-slot letter count and once with an ordered map of character counts,
 * and a search for two ids that differ in exactly one position among
 * neighbours in sorted order.
 */
module BoxIds {
  import opened Options

  // ---------------------------------------------------------------------
  // checksum and checksum_ht
  // ---------------------------------------------------------------------

  predicate IsLower(c: char)
  {
    'a' <= c <= 'z'
  }

  /** Every character of the id is an ASCII lower-case letter. */
  predicate LowerId(id: string)
  {
    forall p :: 0 <= p < |id| ==> IsLower(id[p])
  }

  predicate AllLower(ids: seq<string>)
  {
    forall i :: 0 <= i < |ids| ==> LowerId(ids[i])
  }

  /** The letter counted in slot k of the 26-slot table. */
  function Letter(k: nat): (c: char)
    requires k < 26
    ensures IsLower(c) && c as int - 'a' as int == k
  {
    ('a' as int + k) as char
  }

  /** Some character occurs exactly n times in the id. */
  ghost predicate HasRepeat(id: string, n: nat)
  {
    exists c :: c in multiset(id) && multiset(id)[c] == n
  }

  /** Number of ids in which some character occurs exactly n times; each
      id adds at most one. */
  ghost function CountWithRepeat(ids: seq<string>, n: nat): (k: nat)
    ensures k <= |ids|
  {
    if ids == [] then 0
    else CountWithRepeat(ids[..|ids| - 1], n) + (if HasRepeat(ids[|ids| - 1], n) then 1 else 0)
  }

  /** The checksum: ids with a letter three times, times ids with a letter twice. */
  ghost function BoxChecksum(ids: seq<string>): nat
  {
    CountWithRepeat(ids, 3) * CountWithRepeat(ids, 2)
  }

  /** Slot k holds the number of occurrences of the k-th letter in the id. */
  ghost predicate SlotsOf(id: string, counts: seq<nat>)
  {
    |counts| == 26 && forall k :: 0 <= k < 26 ==> counts[k] == multiset(id)[Letter(k)]
  }

  /** Some slot holds n. */
  predicate HasSlot(counts: seq<nat>, n: nat)
  {
    exists k :: 0 <= k < |counts| && counts[k] == n
  }

  /** A 26-slot letter table of a lower-case id answers "some letter
      occurs exactly n times" by looking for a slot holding n. */
  lemma SlotsDecideRepeat(id: string, counts: seq<nat>, n: nat)
    requires LowerId(id) && SlotsOf(id, counts) && n > 0
    ensures HasRepeat(id, n) <==> HasSlot(counts, n)
  {
    if HasRepeat(id, n) {
      var c :| c in multiset(id) && multiset(id)[c] == n;
      assert c in id;
      var p :| 0 <= p < |id| && id[p] == c;
      var k := c as int - 'a' as int;
      assert Letter(k) == c;
      assert counts[k] == n;
    }
    if k :| 0 <= k < 26 && counts[k] == n {
      assert Letter(k) in multiset(id);
    }
  }

  /** Extending the prefix by one id adds that id's contribution. */
  lemma CountWithRepeatStep(ids: seq<string>, i: nat, n: nat)
    requires i < |ids|
    ensures CountWithRepeat(ids[..i + 1], n) == CountWithRepeat(ids[..i], n) + (if HasRepeat(ids[i], n) then 1 else 0)
  {
    assert ids[..i + 1][..i] == ids[..i];
  }

  /** Counts the letters of a lower-case id into 26 slots, slot k for
      the k-th letter of the alphabet. */
  method CountLetters(id: string) returns (charCount: array<nat>)
    requires LowerId(id)
    ensures fresh(charCount) && SlotsOf(id, charCount[..])
  {
    charCount := new nat[26](_ => 0);
    for p := 0 to |id|
      invariant SlotsOf(id[..p], charCount[..])
    {
      var idx := id[p] as int - 'a' as int;
      charCount[idx] := charCount[idx] + 1;
      assert id[..p + 1] == id[..p] + [id[p]];
    }
    assert id[..|id|] == id;
  }

  /** Scans the slots in order, raising each flag at the first slot that
      holds two (three) and stopping once both flags are up. */
  method ScanSlots(charCount: array<nat>) returns (twiceFlag: bool, thriceFlag: bool)
    requires charCount.Length == 26
    ensures twiceFlag <==> HasSlot(charCount[..], 2)
    ensures thriceFlag <==> HasSlot(charCount[..], 3)
  {
    twiceFlag, thriceFlag := false, false;
    for k := 0 to 26
      invariant twiceFlag <==> exists k' :: 0 <= k' < k && charCount[k'] == 2
      invariant thriceFlag <==> exists k' :: 0 <= k' < k && charCount[k'] == 3
    {
      if !twiceFlag && charCount[k] == 2 {
        twiceFlag := true;
      }
      if !thriceFlag && charCount[k] == 3 {
        thriceFlag := true;
      }
      if twiceFlag && thriceFlag {
        break;
      }
    }
  }

  /** Per-id work of the array version: count into 26 slots, then scan them. */
  method SlotFlags(id: string) returns (twiceFlag: bool, thriceFlag: bool)
    requires LowerId(id)
    ensures twiceFlag == HasRepeat(id, 2) && thriceFlag == HasRepeat(id, 3)
  {
    var charCount := CountLetters(id);
    twiceFlag, thriceFlag := ScanSlots(charCount);
    SlotsDecideRepeat(id, charCount[..], 2);
    SlotsDecideRepeat(id, charCount[..], 3);
  }

  /** The array version: each lower-case id adds one to `twice` when some
      letter occurs exactly twice and one to `thrice` when some letter
      occurs exactly three times. */
  method Checksum(ids: seq<string>) returns (sum: nat)
    requires AllLower(ids)
    ensures sum == BoxChecksum(ids)
  {
    var twice, thrice := 0, 0;
    for i := 0 to |ids|
      invariant twice == CountWithRepeat(ids[..i], 2)
      invariant thrice == CountWithRepeat(ids[..i], 3)
    {
      var twiceFlag, thriceFlag := SlotFlags(ids[i]);
      CountWithRepeatStep(ids, i, 2);
      CountWithRepeatStep(ids, i, 3);
      if twiceFlag {
        twice := twice + 1;
      }
      if thriceFlag {
        thrice := thrice + 1;
      }
    }
    assert ids[..|ids|] == ids;
    assert thrice * twice == BoxChecksum(ids);
    sum := thrice * twice;
  }

  /** Every non-empty set of characters has a least element. */
  lemma {:induction false} LeastKeyExists(keys: set<char>)
    requires keys != {}
    ensures exists m :: m in keys && forall d :: d in keys ==> m <= d
  {
    var x :| x in keys;
    if keys != {x} {
      LeastKeyExists(keys - {x});
      var m :| m in keys - {x} && forall d :: d in keys - {x} ==> m <= d;
      var least := if x < m then x else m;
      forall d | d in keys
        ensures least <= d
      {
        if d != x {
          assert d in keys - {x};
        }
      }
    } else {
      assert forall d :: d in keys ==> x <= d;
    }
  }

  /** The map has one entry per character of the id, holding its number
      of occurrences. */
  ghost predicate CountsOf(id: string, charCount: map<char, nat>)
  {
    && (forall c :: c in charCount <==> c in multiset(id))
    && (forall c :: c in charCount ==> charCount[c] == multiset(id)[c])
  }

  /** Some entry of the map holds n. */
  predicate HasEntry(charCount: map<char, nat>, n: nat)
  {
    exists c :: c in charCount && charCount[c] == n
  }

  /** Counts the characters of an id into an ordered map: an absent key is
      inserted with zero, then the entry goes up by one. */
  method CountChars(id: string) returns (charCount: map<char, nat>)
    ensures CountsOf(id, charCount)
  {
    charCount := map[];
    for p := 0 to |id|
      invariant CountsOf(id[..p], charCount)
    {
      var c := id[p];
      var count := if c in charCount then charCount[c] else 0;
      charCount := charCount[c := count + 1];
      assert id[..p + 1] == id[..p] + [id[p]];
    }
    assert id[..|id|] == id;
  }

  /** A character-count map answers "some character occurs exactly n
      times" by looking for an entry holding n. */
  lemma TableDecidesRepeat(id: string, charCount: map<char, nat>, n: nat)
    requires CountsOf(id, charCount)
    ensures HasRepeat(id, n) <==> HasEntry(charCount, n)
  {
    if HasRepeat(id, n) {
      var c :| c in multiset(id) && multiset(id)[c] == n;
      assert c in charCount && charCount[c] == n;
    }
  }

  /** Visits the entries in ascending key order, raising each flag at the
      first entry that holds two (three) and stopping once both are up. */
  method ScanCounts(charCount: map<char, nat>) returns (twiceFlag: bool, thriceFlag: bool)
    ensures twiceFlag <==> HasEntry(charCount, 2)
    ensures thriceFlag <==> HasEntry(charCount, 3)
  {
    twiceFlag, thriceFlag := false, false;
    var rest := charCount.Keys;
    while rest != {}
      invariant rest <= charCount.Keys
      invariant forall c, d :: c in charCount && c !in rest && d in rest ==> c < d
      invariant twiceFlag <==> exists c :: c in charCount && c !in rest && charCount[c] == 2
      invariant thriceFlag <==> exists c :: c in charCount && c !in rest && charCount[c] == 3
      decreases rest
    {
      LeastKeyExists(rest);
      var c :| c in rest && forall d :: d in rest ==> c <= d;
      rest := rest - {c};
      if !twiceFlag && charCount[c] == 2 {
        twiceFlag := true;
      }
      if !thriceFlag && charCount[c] == 3 {
        thriceFlag := true;
      }
      if twiceFlag && thriceFlag {
        break;
      }
    }
  }

  /** Per-id work of the map version: count into an ordered map, then scan it. */
  method TableFlags(id: string) returns (twiceFlag: bool, thriceFlag: bool)
    ensures twiceFlag == HasRepeat(id, 2) && thriceFlag == HasRepeat(id, 3)
  {
    var charCount := CountChars(id);
    twiceFlag, thriceFlag := ScanCounts(charCount);
    TableDecidesRepeat(id, charCount, 2);
    TableDecidesRepeat(id, charCount, 3);
  }

  /** The map version: accepts any characters and agrees with Checksum on
      lower-case ids, since both compute BoxChecksum. */
  method ChecksumTable(ids: seq<string>) returns (sum: nat)
    ensures sum == BoxChecksum(ids)
  {
    var twice, thrice := 0, 0;
    for i := 0 to |ids|
      invariant twice == CountWithRepeat(ids[..i], 2)
      invariant thrice == CountWithRepeat(ids[..i], 3)
    {
      var twiceFlag, thriceFlag := TableFlags(ids[i]);
      CountWithRepeatStep(ids, i, 2);
      CountWithRepeatStep(ids, i, 3);
      if twiceFlag {
        twice := twice + 1;
      }
      if thriceFlag {
        thrice := thrice + 1;
      }
    }
    assert ids[..|ids|] == ids;
    assert thrice * twice == BoxChecksum(ids);
    sum := thrice * twice;
  }

  // ---------------------------------------------------------------------
  // The documented checksum example
  // ---------------------------------------------------------------------

  /** A count of n is ruled out by checking the letters that occur. */
  lemma NoRepeatByLetters(id: string, n: nat)
    requires forall p :: 0 <= p < |id| ==> multiset(id)[id[p]] != n
    ensures !HasRepeat(id, n)
  {
    forall c | c in multiset(id)
      ensures multiset(id)[c] != n
    {
      assert c in id;
    }
  }

  /** The letter counts of each example id, one lemma per id. */
  lemma ExampleNoRepeat(id: string)
    requires id == "abcdef"
    ensures !HasRepeat(id, 2) && !HasRepeat(id, 3)
  {
    assert multiset(id)['a'] == 1 && multiset(id)['b'] == 1 && multiset(id)['c'] == 1;
    assert multiset(id)['d'] == 1 && multiset(id)['e'] == 1 && multiset(id)['f'] == 1;
    NoRepeatByLetters(id, 2);
    NoRepeatByLetters(id, 3);
  }
  lemma ExampleBothRepeats(id: string)
    requires id == "bababc"
    ensures HasRepeat(id, 2) && HasRepeat(id, 3)
  {
    assert multiset(id)['a'] == 2 && multiset(id)['b'] == 3;
  }
  lemma ExampleTwiceB(id: string)
    requires id == "abbcde"
    ensures HasRepeat(id, 2) && !HasRepeat(id, 3)
  {
    assert multiset(id)['a'] == 1 && multiset(id)['b'] == 2 && multiset(id)['c'] == 1;
    assert multiset(id)['d'] == 1 && multiset(id)['e'] == 1;
    NoRepeatByLetters(id, 3);
  }
  lemma ExampleThriceC(id: string)
    requires id == "abcccd"
    ensures !HasRepeat(id, 2) && HasRepeat(id, 3)
  {
    assert multiset(id)['a'] == 1 && multiset(id)['b'] == 1 && multiset(id)['c'] == 3 && multiset(id)['d'] == 1;
    NoRepeatByLetters(id, 2);
  }
  lemma ExampleTwiceAD(id: string)
    requires id == "aabcdd"
    ensures HasRepeat(id, 2) && !HasRepeat(id, 3)
  {
    assert multiset(id)['a'] == 2 && multiset(id)['b'] == 1 && multiset(id)['c'] == 1 && multiset(id)['d'] == 2;
    NoRepeatByLetters(id, 3);
  }
  lemma ExampleTwiceE(id: string)
    requires id == "abcdee"
    ensures HasRepeat(id, 2) && !HasRepeat(id, 3)
  {
    assert multiset(id)['a'] == 1 && multiset(id)['b'] == 1 && multiset(id)['c'] == 1;
    assert multiset(id)['d'] == 1 && multiset(id)['e'] == 2;
    NoRepeatByLetters(id, 3);
  }
  lemma ExampleThriceAB(id: string)
    requires id == "ababab"
    ensures !HasRepeat(id, 2) && HasRepeat(id, 3)
  {
    assert multiset(id)['a'] == 3 && multiset(id)['b'] == 3;
    NoRepeatByLetters(id, 2);
  }

  /** In the example four ids have a letter exactly twice: the second,
      third, fifth and sixth. */
  lemma ExampleTwiceTally(ids: seq<string>)
    requires |ids| == 7
    requires !HasRepeat(ids[0], 2) && HasRepeat(ids[1], 2) && HasRepeat(ids[2], 2) && !HasRepeat(ids[3], 2)
    requires HasRepeat(ids[4], 2) && HasRepeat(ids[5], 2) && !HasRepeat(ids[6], 2)
    ensures CountWithRepeat(ids, 2) == 4
  {
    var tally := [0, 0, 1, 2, 2, 3, 4, 4];
    for i := 0 to 7
      invariant CountWithRepeat(ids[..i], 2) == tally[i]
    {
      CountWithRepeatStep(ids, i, 2);
    }
    assert ids[..7] == ids;
  }

  /** In the example three ids have a letter exactly three times: the
      second, fourth and seventh. */
  lemma ExampleThriceTally(ids: seq<string>)
    requires |ids| == 7
    requires !HasRepeat(ids[0], 3) && HasRepeat(ids[1], 3) && !HasRepeat(ids[2], 3) && HasRepeat(ids[3], 3)
    requires !HasRepeat(ids[4], 3) && !HasRepeat(ids[5], 3) && HasRepeat(ids[6], 3)
    ensures CountWithRepeat(ids, 3) == 3
  {
    var tally := [0, 0, 1, 1, 2, 2, 2, 3];
    for i := 0 to 7
      invariant CountWithRepeat(ids[..i], 3) == tally[i]
    {
      CountWithRepeatStep(ids, i, 3);
    }
    assert ids[..7] == ids;
  }

  /** The documented example: the checksum of the seven ids is 3 * 4 = 12. */
  lemma ChecksumExample(ids: seq<string>)
    requires |ids| == 7
    requires ids[0] == "abcdef" && ids[1] == "bababc" && ids[2] == "abbcde" && ids[3] == "abcccd"
    requires ids[4] == "aabcdd" && ids[5] == "abcdee" && ids[6] == "ababab"
    ensures BoxChecksum(ids) == 12
  {
    ExampleNoRepeat(ids[0]);
    ExampleBothRepeats(ids[1]);
    ExampleTwiceB(ids[2]);
    ExampleThriceC(ids[3]);
    ExampleTwiceAD(ids[4]);
    ExampleTwiceE(ids[5]);
    ExampleThriceAB(ids[6]);
    ExampleTwiceTally(ids);
    ExampleThriceTally(ids);
  }

  // ---------------------------------------------------------------------
  // Ordering and sorting of ids
  // ---------------------------------------------------------------------

  /** The order of strings: lexicographic by character, a proper prefix
      coming first. */
  predicate LexLe(a: string, b: string)
  {
    |a| == 0 || (|b| > 0 && (a[0] < b[0] || (a[0] == b[0] && LexLe(a[1..], b[1..]))))
  }

  /** Any two ids are ordered one way or the other. */
  lemma {:induction false} LexLeTotal(a: string, b: string)
    ensures LexLe(a, b) || LexLe(b, a)
  {
    if |a| > 0 && |b| > 0 && a[0] == b[0] {
      LexLeTotal(a[1..], b[1..]);
    }
  }

  predicate Sorted(s: seq<string>)
  {
    forall k :: 0 < k < |s| ==> LexLe(s[k - 1], s[k])
  }

  /** Inserts x into a sorted list before the first element it does not exceed. */
  function Insert(x: string, s: seq<string>): (r: seq<string>)
    ensures multiset(r) == multiset(s) + multiset{x}
    ensures |r| == |s| + 1 && (r[0] == x || (|s| > 0 && r[0] == s[0]))
    ensures Sorted(s) ==> Sorted(r)
  {
    if s == [] then [x]
    else if LexLe(x, s[0]) then [x] + s
    else
      LexLeTotal(x, s[0]);
      assert s == [s[0]] + s[1..];
      [s[0]] + Insert(x, s[1..])
  }

  /** Ids ordered both ways are equal. */
  lemma {:induction false} LexLeAntisymmetric(a: string, b: string)
    requires LexLe(a, b) && LexLe(b, a)
    ensures a == b
  {
    if |a| > 0 {
      LexLeAntisymmetric(a[1..], b[1..]);
      assert a == [a[0]] + a[1..] && b == [b[0]] + b[1..];
    }
  }

  /** The order of ids is transitive. */
  lemma {:induction false} LexLeTransitive(a: string, b: string, c: string)
    requires LexLe(a, b) && LexLe(b, c)
    ensures LexLe(a, c)
  {
    if |a| > 0 && a[0] == b[0] && b[0] == c[0] {
      LexLeTransitive(a[1..], b[1..], c[1..]);
    }
  }

  /** The head of a sorted list is its least element. */
  lemma {:induction false} SortedHeadLeast(s: seq<string>, i: nat)
    requires Sorted(s) && i < |s|
    ensures LexLe(s[0], s[i])
  {
    if i == 0 {
      LexLeTotal(s[0], s[0]);
    } else {
      SortedHeadLeast(s, i - 1);
      LexLeTransitive(s[0], s[i - 1], s[i]);
    }
  }

  /** Dropping the head keeps a list sorted. */
  lemma SortedTail(s: seq<string>)
    requires Sorted(s) && |s| > 0
    ensures Sorted(s[1..])
  {
    forall k | 0 < k < |s| - 1
      ensures LexLe(s[1..][k - 1], s[1..][k])
    {
      assert s[1..][k - 1] == s[k] && s[1..][k] == s[k + 1];
    }
  }

  /** Two sorted lists with the same elements start alike. */
  lemma SortedSameHead(a: seq<string>, b: seq<string>)
    requires Sorted(a) && Sorted(b) && multiset(a) == multiset(b) && a != []
    ensures b != [] && a[0] == b[0]
  {
    assert a[0] in multiset(b);
    var j :| 0 <= j < |b| && b[j] == a[0];
    assert b[0] in multiset(a);
    var i :| 0 <= i < |a| && a[i] == b[0];
    SortedHeadLeast(a, i);
    SortedHeadLeast(b, j);
    LexLeAntisymmetric(a[0], b[0]);
  }

  /** There is only one sorted order of a collection of ids, so any sort
      yields the same list. */
  lemma {:induction false} SortedPermutationUnique(a: seq<string>, b: seq<string>)
    requires Sorted(a) && Sorted(b) && multiset(a) == multiset(b)
    ensures a == b
  {
    if a == [] {
      assert |multiset(b)| == |b|;
    } else {
      SortedSameHead(a, b);
      assert a == [a[0]] + a[1..] && b == [b[0]] + b[1..];
      assert multiset(a[1..]) == multiset(a) - multiset{a[0]};
      assert multiset(b[1..]) == multiset(b) - multiset{b[0]};
      SortedTail(a);
      SortedTail(b);
      SortedPermutationUnique(a[1..], b[1..]);
    }
  }

  /** Insertion sort: a sorted permutation of its input. */
  function SortIds(ids: seq<string>): (r: seq<string>)
    ensures multiset(r) == multiset(ids) && |r| == |ids|
    ensures Sorted(r)
  {
    if ids == [] then []
    else
      assert ids == [ids[0]] + ids[1..];
      Insert(ids[0], SortIds(ids[1..]))
  }

  // ---------------------------------------------------------------------
  // find_id_pair
  // ---------------------------------------------------------------------

  /** The two ids the search reports, in sorted order. */
  datatype IdPair = IdPair(first: string, second: string)

  /** Positions, within the shorter of the two ids, where they differ. */
  ghost function Mismatches(a: string, b: string, n: nat): set<nat>
  {
    set p: nat | p < n && p < |a| && p < |b| && a[p] != b[p]
  }

  /** The two ids differ in exactly one position of their common length. */
  ghost predicate OneApart(a: string, b: string)
  {
    |Mismatches(a, b, |a|)| == 1
  }

  /** Looking one position further adds that position if the ids differ there. */
  lemma MismatchesStep(a: string, b: string, p: nat)
    requires p < |a| && p < |b|
    ensures Mismatches(a, b, p + 1) == Mismatches(a, b, p) + (if a[p] != b[p] then {p} else {})
  {
  }

  /** Past the end of the shorter id no further mismatch is found. */
  lemma MismatchesWithin(a: string, b: string, n: nat)
    requires n >= |a| || n >= |b|
    ensures Mismatches(a, b, n) == Mismatches(a, b, |a|)
  {
  }

  /** Two distinct mismatching positions rule out "exactly one". */
  lemma TwoMismatches(a: string, b: string, d: nat, p: nat)
    requires d != p && d in Mismatches(a, b, |a|) && p in Mismatches(a, b, |a|)
    ensures !OneApart(a, b)
  {
    var all := Mismatches(a, b, |a|);
    assert d in all - {p};
    assert |all - {p}| == |all| - 1;
  }

  /** Walks the two ids side by side, remembering the first mismatch and
      giving up at a second one. */
  method DiffersInOnePlace(a: string, b: string) returns (one: bool)
    ensures one <==> OneApart(a, b)
  {
    var diffIdx: Option<nat> := None;
    var len := if |a| < |b| then |a| else |b|;
    for p := 0 to len
      invariant diffIdx.None? ==> Mismatches(a, b, p) == {}
      invariant diffIdx.Some? ==> Mismatches(a, b, p) == {diffIdx.value}
    {
      MismatchesStep(a, b, p);
      if a[p] != b[p] {
        if diffIdx != None {
          MismatchesWithin(a, b, len);
          assert Mismatches(a, b, p) <= Mismatches(a, b, len);
          TwoMismatches(a, b, diffIdx.value, p);
          return false;
        }
        diffIdx := Some(p);
      }
    }
    MismatchesWithin(a, b, len);
    one := diffIdx.Some?;
  }

  /** The ids at k - 1 and k of the sorted list are one apart. */
  ghost predicate PairEndsAt(sorted: seq<string>, k: nat)
    requires 1 <= k < |sorted|
  {
    OneApart(sorted[k - 1], sorted[k])
  }

  /** No neighbouring pair (k - 1, k) with from <= k < to is one apart. */
  ghost predicate NoPairIn(sorted: seq<string>, from: nat, to: nat)
    requires 1 <= from && to <= |sorted|
  {
    forall k :: from <= k < to ==> !PairEndsAt(sorted, k)
  }

  /** The first k, from <= k < end, such that the neighbouring ids at
      k - 1 and k of the sorted list are one apart. */
  ghost function FirstPairIndex(sorted: seq<string>, from: nat, end: nat): (r: Option<nat>)
    requires 1 <= from && end <= |sorted|
    ensures r.None? <==> NoPairIn(sorted, from, end)
    ensures r.Some? ==> from <= r.value < end && PairEndsAt(sorted, r.value)
                        && NoPairIn(sorted, from, r.value)
    decreases end - from
  {
    if from >= end then None
    else if PairEndsAt(sorted, from) then Some(from)
    else FirstPairIndex(sorted, from + 1, end)
  }

  /** The pair of ids the search reports for a first index. */
  ghost function PairAt(sorted: seq<string>, k: Option<nat>): Option<IdPair>
    requires k.Some? ==> 1 <= k.value < |sorted|
  {
    match k
    case None => None
    case Some(i) => Some(IdPair(sorted[i - 1], sorted[i]))
  }

  /** As written: the loop runs over 1..len-1, so the last neighbouring
      pair (len - 2, len - 1) is never compared. An empty list underflows
      `len - 1`, hence the precondition. */
  method FindIdPair(ids: seq<string>) returns (pair: Option<IdPair>)
    requires |ids| >= 1
    ensures pair == PairAt(SortIds(ids), FirstPairIndex(SortIds(ids), 1, |ids| - 1))
  {
    var sortedIds := SortIds(ids);
    var idx := 1;
    while idx < |sortedIds| - 1
      invariant 1 <= idx
      invariant FirstPairIndex(sortedIds, 1, |ids| - 1) == FirstPairIndex(sortedIds, idx, |ids| - 1)
    {
      var a := sortedIds[idx - 1];
      var b := sortedIds[idx];
      var one := DiffersInOnePlace(a, b);
      if one {
        return Some(IdPair(a, b));
      }
      idx := idx + 1;
    }
    return None;
  }

  /** Corrected: compares every neighbouring pair, including the last one,
      and accepts the empty list. */
  method FindIdPairAllNeighbours(ids: seq<string>) returns (pair: Option<IdPair>)
    ensures pair == PairAt(SortIds(ids), FirstPairIndex(SortIds(ids), 1, |ids|))
  {
    var sortedIds := SortIds(ids);
    var idx := 1;
    while idx < |sortedIds|
      invariant 1 <= idx
      invariant FirstPairIndex(sortedIds, 1, |ids|) == FirstPairIndex(sortedIds, idx, |ids|)
    {
      var a := sortedIds[idx - 1];
      var b := sortedIds[idx];
      var one := DiffersInOnePlace(a, b);
      if one {
        return Some(IdPair(a, b));
      }
      idx := idx + 1;
    }
    return None;
  }

  /** A reported pair is two ids of the input, neighbours in sorted order
      with the smaller first, that differ in exactly one position. */
  lemma ReportedPairFacts(ids: seq<string>, end: nat)
    requires end <= |ids| && FirstPairIndex(SortIds(ids), 1, end).Some?
    ensures var pair := PairAt(SortIds(ids), FirstPairIndex(SortIds(ids), 1, end)).value;
            && pair.first in ids && pair.second in ids
            && LexLe(pair.first, pair.second) && OneApart(pair.first, pair.second)
  {
    var sorted := SortIds(ids);
    var k := FirstPairIndex(sorted, 1, end).value;
    assert sorted[k - 1] in multiset(sorted) && sorted[k] in multiset(sorted);
  }

  /** With one or two ids the search as written reports nothing. */
  lemma ShortListsReportNothing(ids: seq<string>)
    requires |ids| == 1 || |ids| == 2
    ensures FirstPairIndex(SortIds(ids), 1, |ids| - 1) == None
  {
  }

  /** When the only pair one apart is the last neighbouring pair, the
      search as written misses it and the corrected one finds it. */
  lemma LastPairOnlyFoundWhenAllNeighboursCompared(sorted: seq<string>)
    requires |sorted| >= 2
    requires NoPairIn(sorted, 1, |sorted| - 1) && PairEndsAt(sorted, |sorted| - 1)
    ensures FirstPairIndex(sorted, 1, |sorted| - 1) == None
    ensures FirstPairIndex(sorted, 1, |sorted|) == Some(|sorted| - 1)
  {
    FirstPairIndexSkipsNone(sorted, 1, |sorted|);
  }

  /** Starting the search past a stretch with no pair changes nothing. */
  lemma {:induction false} FirstPairIndexSkipsNone(sorted: seq<string>, from: nat, end: nat)
    requires 1 <= from && from < end <= |sorted|
    requires NoPairIn(sorted, from, end - 1)
    ensures FirstPairIndex(sorted, from, end) == FirstPairIndex(sorted, end - 1, end)
    decreases end - from
  {
    if from < end - 1 {
      assert NoPairIn(sorted, from + 1, end - 1);
      FirstPairIndexSkipsNone(sorted, from + 1, end);
    }
  }

  /** "ab" and "ac" differ in one position, yet as the only two ids the
      search as written never compares them. */
  lemma TwoIdsOneApartMissed()
    ensures OneApart("ab", "ac")
    ensures SortIds(["ab", "ac"]) == ["ab", "ac"]
    ensures FirstPairIndex(SortIds(["ab", "ac"]), 1, 1) == None
    ensures FirstPairIndex(SortIds(["ab", "ac"]), 1, 2) == Some(1)
  {
    assert Mismatches("ab", "ac", 2) == {1};
    SortIdsCons("ac", []);
    SortIdsCons("ab", ["ac"]);
  }

  /** Sorting a list is inserting its head into its sorted tail. */
  lemma SortIdsCons(x: string, s: seq<string>)
    ensures SortIds([x] + s) == Insert(x, SortIds(s))
  {
    assert ([x] + s)[1..] == s;
  }

  /** The ids of the documented example, in sorted order. */
  lemma ExampleOrder()
    ensures Sorted(ExampleSorted())
  {
    assert LexLe("abcde", "axcye") && LexLe("axcye", "fghij") && LexLe("fghij", "fguij");
    assert LexLe("fguij", "klmno") && LexLe("klmno", "pqrst") && LexLe("pqrst", "wvxyz");
  }

  /** The documented example, in any input order: the seven ids sort to
      abcde, axcye, fghij, fguij, klmno, pqrst, wvxyz, and the search
      reports fghij and fguij, the third neighbouring pair. */
  lemma IdPairExample(ids: seq<string>)
    requires multiset(ids) == multiset(ExampleSorted())
    ensures |ids| == 7 && SortIds(ids) == ExampleSorted()
    ensures FirstPairIndex(SortIds(ids), 1, |ids| - 1) == Some(3)
    ensures PairAt(SortIds(ids), Some(3)) == Some(IdPair("fghij", "fguij"))
  {
    assert |ids| == |multiset(ids)| == |multiset(ExampleSorted())| == |ExampleSorted()|;
    ExampleOrder();
    SortedPermutationUnique(SortIds(ids), ExampleSorted());
    ExampleFirstPair(SortIds(ids));
  }

  /** In the sorted example the first neighbouring pair one apart ends at 3. */
  lemma ExampleFirstPair(sorted: seq<string>)
    requires sorted == ExampleSorted()
    ensures FirstPairIndex(sorted, 1, 6) == Some(3)
    ensures PairAt(sorted, Some(3)) == Some(IdPair("fghij", "fguij"))
  {
    TwoMismatches("abcde", "axcye", 1, 3);
    TwoMismatches("axcye", "fghij", 0, 1);
    assert Mismatches("fghij", "fguij", 5) == {2};
    assert !PairEndsAt(sorted, 1) && !PairEndsAt(sorted, 2) && PairEndsAt(sorted, 3);
  }

  function ExampleSorted(): seq<string>
  {
    ["abcde", "axcye", "fghij", "fguij", "klmno", "pqrst", "wvxyz"]
  }

  /** axaa and ayaa differ only in their second letter. */
  lemma MissedPairOneApart()
    ensures OneApart("axaa", "ayaa")
  {
    assert Mismatches("axaa", "ayaa", 4) == {1};
  }

  /** axaa, axbb, ayaa is already in sorted order. */
  lemma MissedPairOrder()
    ensures Sorted(["axaa", "axbb", "ayaa"])
  {
    assert LexLe("axaa", "axbb") && LexLe("axbb", "ayaa");
  }

  /** Each neighbouring pair of axaa, axbb, ayaa differs in two positions. */
  lemma MissedPairNotNeighbours(sorted: seq<string>)
    requires sorted == ["axaa", "axbb", "ayaa"]
    ensures FirstPairIndex(sorted, 1, 3) == None
  {
    TwoMismatches("axaa", "axbb", 2, 3);
    TwoMismatches("axbb", "ayaa", 1, 2);
    assert !PairEndsAt(sorted, 1) && !PairEndsAt(sorted, 2);
  }

  /** Comparing only neighbours can miss a pair: axaa and ayaa differ in
      one position, but axbb sorts between them and differs from each in
      more than one, so whatever the input order, even the corrected search
      reports nothing. */
  lemma NeighbourSearchMissesPair(ids: seq<string>)
    requires multiset(ids) == multiset(["axaa", "axbb", "ayaa"])
    ensures OneApart("axaa", "ayaa")
    ensures |ids| == 3 && FirstPairIndex(SortIds(ids), 1, |ids|) == None
  {
    MissedPairOneApart();
    assert |ids| == |multiset(ids)| == |multiset(["axaa", "axbb", "ayaa"])| == |["axaa", "axbb", "ayaa"]|;
    MissedPairOrder();
    SortedPermutationUnique(SortIds(ids), ["axaa", "axbb", "ayaa"]);
    MissedPairNotNeighbours(SortIds(ids));
  }
}
