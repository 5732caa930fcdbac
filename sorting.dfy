/** What the store's four sorts compute, as functions on sequences that
    follow the in-place loops step by step, and the properties proved of
    them: ordered, a permutation, stable (insertion sort only), and the
    identity on input that is already ordered. */
module SortSpec {
  import opened Outfits

  // ---------------------------------------------------------------------
  // Insertion sort (insertionSortKategori, insertionSortLastUsed)
  // ---------------------------------------------------------------------

  /** Inserting x into s the way the inner loop does: starting from the end,
      every record that x strictly precedes moves one place right, and x
      lands just after the first record it does not precede. */
  function Insert(key: SortKey, asc: bool, x: Outfit, s: seq<Outfit>): (r: seq<Outfit>)
    ensures |r| == |s| + 1
    decreases |s|
  {
    if s == [] || !Precedes(key, asc, x, s[|s| - 1]) then s + [x]
    else Insert(key, asc, x, s[..|s| - 1]) + [s[|s| - 1]]
  }

  /** Inserting adds x and loses nothing. */
  lemma {:induction false} InsertPermutation(key: SortKey, asc: bool, x: Outfit, s: seq<Outfit>)
    ensures multiset(Insert(key, asc, x, s)) == multiset(s) + multiset{x}
    decreases |s|
  {
    if s != [] && Precedes(key, asc, x, s[|s| - 1]) {
      var init := s[..|s| - 1];
      assert s == init + [s[|s| - 1]];
      InsertPermutation(key, asc, x, init);
    }
  }

  /** The outer loop: the records of s inserted one after another, from
      left to right, into the sorted prefix. */
  function InsertionSorted(key: SortKey, asc: bool, s: seq<Outfit>): (r: seq<Outfit>)
    ensures |r| == |s|
    decreases |s|
  {
    if s == [] then []
    else Insert(key, asc, s[|s| - 1], InsertionSorted(key, asc, s[..|s| - 1]))
  }

  /** The insertion sort is a permutation of its input. */
  lemma {:induction false} InsertionSortedPermutation(key: SortKey, asc: bool, s: seq<Outfit>)
    ensures multiset(InsertionSorted(key, asc, s)) == multiset(s)
    decreases |s|
  {
    if s != [] {
      var init := s[..|s| - 1];
      assert s == init + [s[|s| - 1]];
      InsertionSortedPermutation(key, asc, init);
      InsertPermutation(key, asc, s[|s| - 1], InsertionSorted(key, asc, init));
    }
  }

  lemma {:induction false} InsertOrdered(key: SortKey, asc: bool, x: Outfit, s: seq<Outfit>)
    requires Ordered(key, asc, s)
    ensures Ordered(key, asc, Insert(key, asc, x, s))
    decreases |s|
  {
    if s == [] || !Precedes(key, asc, x, s[|s| - 1]) {
      forall i | 0 <= i < |s|
        ensures !Precedes(key, asc, x, s[i])
      {
        if Precedes(key, asc, x, s[i]) {
          PrecedesSplit(key, asc, x, s[|s| - 1], s[i]);
        }
      }
      OrderedSnoc(key, asc, s, x);
    } else {
      var init, last := s[..|s| - 1], s[|s| - 1];
      OrderedPrefix(key, asc, s);
      InsertOrdered(key, asc, x, init);
      InsertPermutation(key, asc, x, init);
      LastAfterInserted(key, asc, x, init, last, Insert(key, asc, x, init));
      OrderedSnoc(key, asc, Insert(key, asc, x, init), last);
    }
  }

  /** Appending a record that precedes none of s keeps s ordered. */
  lemma OrderedSnoc(key: SortKey, asc: bool, s: seq<Outfit>, x: Outfit)
    requires Ordered(key, asc, s)
    requires forall i :: 0 <= i < |s| ==> !Precedes(key, asc, x, s[i])
    ensures Ordered(key, asc, s + [x])
  {
  }

  /** Dropping the last record keeps s ordered, and the last record
      precedes none of the others. */
  lemma OrderedPrefix(key: SortKey, asc: bool, s: seq<Outfit>)
    requires Ordered(key, asc, s) && s != []
    ensures Ordered(key, asc, s[..|s| - 1])
    ensures forall i :: 0 <= i < |s| - 1 ==> !Precedes(key, asc, s[|s| - 1], s[i])
  {
  }

  /** When x precedes the last record, that record precedes nothing in the
      result of inserting x into the others. */
  lemma LastAfterInserted(key: SortKey, asc: bool, x: Outfit, init: seq<Outfit>, last: Outfit, r: seq<Outfit>)
    requires Precedes(key, asc, x, last)
    requires forall i :: 0 <= i < |init| ==> !Precedes(key, asc, last, init[i])
    requires multiset(r) == multiset(init) + multiset{x}
    ensures forall i :: 0 <= i < |r| ==> !Precedes(key, asc, last, r[i])
  {
    forall i | 0 <= i < |r|
      ensures !Precedes(key, asc, last, r[i])
    {
      assert r[i] in multiset(init) + multiset{x};
      if r[i] == x {
        PrecedesAsymmetric(key, asc, x, last);
      } else {
        assert r[i] in init;
      }
    }
  }

  /** The insertion sort leaves its records ordered. */
  lemma {:induction false} InsertionSortedOrdered(key: SortKey, asc: bool, s: seq<Outfit>)
    ensures Ordered(key, asc, InsertionSorted(key, asc, s))
    decreases |s|
  {
    if s != [] {
      var init := s[..|s| - 1];
      InsertionSortedOrdered(key, asc, init);
      InsertOrdered(key, asc, s[|s| - 1], InsertionSorted(key, asc, init));
    }
  }

  /** Moving a record past one with a different key, or past a record of
      another tie class, leaves every tie class alone. */
  lemma TiesPastLast(key: SortKey, e: Outfit, r: seq<Outfit>, init: seq<Outfit>, x: Outfit, last: Outfit)
    requires TieClass(key, e, r) == TieClass(key, e, init + [x])
    requires !(KeyOf(key, x) == KeyOf(key, e) && KeyOf(key, last) == KeyOf(key, e))
    ensures TieClass(key, e, r + [last]) == TieClass(key, e, init + [last] + [x])
  {
    var t, tx, tl := TieClass(key, e, init), TieClass(key, e, [x]), TieClass(key, e, [last]);
    TieClassSingle(key, e, x);
    TieClassSingle(key, e, last);
    TieClassAppend(key, e, r, [last]);
    TieClassAppend(key, e, init, [x]);
    TieClassAppend(key, e, init, [last]);
    TieClassAppend(key, e, init + [last], [x]);
    ConcatCommute(t, tx, tl);
  }

  lemma ConcatCommute(t: seq<Outfit>, u: seq<Outfit>, v: seq<Outfit>)
    requires u == [] || v == []
    ensures t + u + v == t + v + u
  {
    if u == [] {
      assert t + u == t && t + v + u == t + v;
    } else {
      assert t + u + v == t + u && t + v == t;
    }
  }

  /** Inserting x reorders no tie class: it is as if x were appended. */
  lemma {:induction false} InsertTies(key: SortKey, asc: bool, e: Outfit, x: Outfit, s: seq<Outfit>)
    ensures TieClass(key, e, Insert(key, asc, x, s)) == TieClass(key, e, s + [x])
    decreases |s|
  {
    if s != [] && Precedes(key, asc, x, s[|s| - 1]) {
      var init, last := s[..|s| - 1], s[|s| - 1];
      assert s == init + [last];
      InsertTies(key, asc, e, x, init);
      if KeyOf(key, x) == KeyOf(key, e) && KeyOf(key, last) == KeyOf(key, e) {
        PrecedesIrreflexive(key, asc, x, last);
      }
      TiesPastLast(key, e, Insert(key, asc, x, init), init, x, last);
    }
  }

  /** The insertion sort is stable: records with equal keys keep their
      relative order. */
  lemma {:induction false} InsertionSortedStable(key: SortKey, asc: bool, s: seq<Outfit>)
    ensures Stable(key, s, InsertionSorted(key, asc, s))
    decreases |s|
  {
    if s != [] {
      var init, last := s[..|s| - 1], s[|s| - 1];
      InsertionSortedStable(key, asc, init);
      forall e
        ensures TieClass(key, e, InsertionSorted(key, asc, s)) == TieClass(key, e, s)
      {
        var sorted := InsertionSorted(key, asc, init);
        InsertTies(key, asc, e, last, sorted);
        TieClassAppend(key, e, sorted, [last]);
        TieClassAppend(key, e, init, [last]);
        assert s == init + [last];
      }
    }
  }

  /** Input that is already ordered comes out unchanged. */
  lemma {:induction false} InsertionSortedOfOrdered(key: SortKey, asc: bool, s: seq<Outfit>)
    requires Ordered(key, asc, s)
    ensures InsertionSorted(key, asc, s) == s
    decreases |s|
  {
    if s != [] {
      var init, last := s[..|s| - 1], s[|s| - 1];
      OrderedPrefix(key, asc, s);
      InsertionSortedOfOrdered(key, asc, init);
      InsertAtEnd(key, asc, last, init);
      assert s == init + [last];
    }
  }

  /** A record that precedes none of s is inserted at the end. */
  lemma InsertAtEnd(key: SortKey, asc: bool, x: Outfit, s: seq<Outfit>)
    requires forall i :: 0 <= i < |s| ==> !Precedes(key, asc, x, s[i])
    ensures Insert(key, asc, x, s) == s + [x]
  {
    if s != [] {
      assert !Precedes(key, asc, x, s[|s| - 1]);
    }
  }

  /** The inner loop of the insertion sort on the whole live sequence a:
      x is the record being inserted and a[j + 1] the free slot. While x
      strictly precedes a[j], that record moves into the slot and the slot
      moves left; then x fills the slot. */
  function Shift(key: SortKey, asc: bool, a: seq<Outfit>, x: Outfit, j: int): (r: seq<Outfit>)
    requires -1 <= j < |a| - 1
    ensures |r| == |a|
    ensures r[j + 2..] == a[j + 2..]
    decreases j + 1
  {
    if j >= 0 && Precedes(key, asc, x, a[j]) then Shift(key, asc, a[j + 1 := a[j]], x, j - 1)
    else a[j + 1 := x]
  }

  /** The shifting loop inserts x into the records before the free slot and
      leaves the records after it alone. */
  lemma {:induction false} ShiftIsInsert(key: SortKey, asc: bool, a: seq<Outfit>, x: Outfit, j: int)
    requires -1 <= j < |a| - 1
    ensures Shift(key, asc, a, x, j) == Insert(key, asc, x, a[..j + 1]) + a[j + 2..]
    decreases j + 1
  {
    if j >= 0 && Precedes(key, asc, x, a[j]) {
      ShiftIsInsert(key, asc, a[j + 1 := a[j]], x, j - 1);
      ShiftPast(key, asc, a, x, j);
    } else {
      ShiftStop(key, asc, a, x, j);
    }
  }

  /** The step of ShiftIsInsert where a[j] moves right. */
  lemma ShiftPast(key: SortKey, asc: bool, a: seq<Outfit>, x: Outfit, j: int)
    requires 0 <= j < |a| - 1 && Precedes(key, asc, x, a[j])
    requires var a' := a[j + 1 := a[j]];
      Shift(key, asc, a', x, j - 1) == Insert(key, asc, x, a'[..j]) + a'[j + 1..]
    ensures Shift(key, asc, a, x, j) == Insert(key, asc, x, a[..j + 1]) + a[j + 2..]
  {
    var a' := a[j + 1 := a[j]];
    var ins := Insert(key, asc, x, a[..j]);
    assert a'[..j] == a[..j];
    assert a'[j + 1..] == [a[j]] + a[j + 2..];
    assert a[..j + 1][..j] == a[..j];
    assert Insert(key, asc, x, a[..j + 1]) == ins + [a[j]];
    ConcatAssoc(ins, [a[j]], a[j + 2..]);
  }

  /** The step of ShiftIsInsert where x fills the slot. */
  lemma ShiftStop(key: SortKey, asc: bool, a: seq<Outfit>, x: Outfit, j: int)
    requires -1 <= j < |a| - 1 && !(j >= 0 && Precedes(key, asc, x, a[j]))
    ensures Shift(key, asc, a, x, j) == Insert(key, asc, x, a[..j + 1]) + a[j + 2..]
  {
    assert Insert(key, asc, x, a[..j + 1]) == a[..j + 1] + [x];
    SlotFilled(a, x, j + 1);
  }

  /** Writing x into slot p of a. */
  lemma SlotFilled(a: seq<Outfit>, x: Outfit, p: int)
    requires 0 <= p < |a|
    ensures a[p := x] == a[..p] + [x] + a[p + 1..]
  {
  }

  lemma ConcatAssoc(t: seq<Outfit>, u: seq<Outfit>, v: seq<Outfit>)
    ensures t + (u + v) == t + u + v
  {
  }

  /** The outer loop of the insertion sort: the live sequence after the
      rounds for positions 1 .. i - 1. */
  function InsertionPasses(key: SortKey, asc: bool, s: seq<Outfit>, i: nat): (r: seq<Outfit>)
    requires i <= |s| || i <= 1
    ensures |r| == |s|
    decreases i
  {
    if i <= 1 then s
    else
      var a := InsertionPasses(key, asc, s, i - 1);
      Shift(key, asc, a, a[i - 1], i - 2)
  }

  /** After the rounds for positions below i, the first i records are those
      records insertion-sorted and the rest are untouched. */
  lemma {:induction false} InsertionPassesSorted(key: SortKey, asc: bool, s: seq<Outfit>, i: nat)
    requires i <= |s|
    ensures InsertionPasses(key, asc, s, i) == InsertionSorted(key, asc, s[..i]) + s[i..]
    decreases i
  {
    if i == 0 {
      assert s[..0] == [];
    } else if i == 1 {
      assert s[..1] == [] + [s[0]];
      assert s == [s[0]] + s[1..];
    } else {
      InsertionPassesSorted(key, asc, s, i - 1);
      InsertionRound(key, asc, s, i, InsertionPasses(key, asc, s, i - 1));
    }
  }

  /** Once every round has run, the passes are the insertion sort. */
  lemma InsertionPassesAll(key: SortKey, asc: bool, s: seq<Outfit>, i: nat)
    requires i == |s| || (s == [] && i == 1)
    ensures InsertionPasses(key, asc, s, i) == InsertionSorted(key, asc, s)
  {
    if s != [] {
      InsertionPassesSorted(key, asc, s, i);
      assert s[..i] == s && s[i..] == [];
    }
  }

  /** One round of the outer loop inserts the record at i - 1 into the
      sorted records before it. */
  lemma InsertionRound(key: SortKey, asc: bool, s: seq<Outfit>, i: nat, a: seq<Outfit>)
    requires 2 <= i <= |s|
    requires a == InsertionSorted(key, asc, s[..i - 1]) + s[i - 1..]
    ensures Shift(key, asc, a, a[i - 1], i - 2) == InsertionSorted(key, asc, s[..i]) + s[i..]
  {
    assert a[..i - 1] == InsertionSorted(key, asc, s[..i - 1]) && a[i - 1] == s[i - 1];
    assert a[i..] == s[i..];
    ShiftIsInsert(key, asc, a, a[i - 1], i - 2);
    assert s[..i][..i - 1] == s[..i - 1];
  }

  // ---------------------------------------------------------------------
  // Selection sort (selectionSortNama, selectionSortFormalitas)
  // ---------------------------------------------------------------------

  /** The inner loop of the selection sort: m is the current choice and the
      scan goes on from j; a later record replaces the choice only when it
      strictly precedes it. */
  function ScanMin(key: SortKey, asc: bool, a: seq<Outfit>, j: int, m: int): (r: int)
    requires 0 <= m < j <= |a|
    ensures m <= r < |a|
    ensures r == m || j <= r
    decreases |a| - j
  {
    if j == |a| then m
    else ScanMin(key, asc, a, j + 1, if Precedes(key, asc, a[j], a[m]) then j else m)
  }

  /** r is the first of the records from lo on that come first: none of them
      strictly precedes a[r], and a[r] strictly precedes every one before r. */
  ghost predicate IsFirstMinFrom(key: SortKey, asc: bool, a: seq<Outfit>, lo: int, r: int)
  {
    && 0 <= lo <= r < |a|
    && (forall k :: lo <= k < |a| ==> !Precedes(key, asc, a[k], a[r]))
    && (forall k :: lo <= k < r ==> Precedes(key, asc, a[r], a[k]))
  }

  /** One step of the scan keeps m the first minimum of the records seen. */
  lemma ScanStep(key: SortKey, asc: bool, a: seq<Outfit>, lo: int, j: int, m: int)
    requires 0 <= lo <= m < j < |a|
    requires forall k :: lo <= k < j ==> !Precedes(key, asc, a[k], a[m])
    requires forall k :: lo <= k < m ==> Precedes(key, asc, a[m], a[k])
    ensures var m' := if Precedes(key, asc, a[j], a[m]) then j else m;
      && (forall k :: lo <= k < j + 1 ==> !Precedes(key, asc, a[k], a[m']))
      && (forall k :: lo <= k < m' ==> Precedes(key, asc, a[m'], a[k]))
  {
    if Precedes(key, asc, a[j], a[m]) {
      forall k | lo <= k < j
        ensures Precedes(key, asc, a[j], a[k])
      {
        if k < m {
          PrecedesTransitive(key, asc, a[j], a[m], a[k]);
        } else {
          PrecedesSplit(key, asc, a[j], a[k], a[m]);
        }
      }
      forall k | lo <= k < j + 1
        ensures !Precedes(key, asc, a[k], a[j])
      {
        if k < j {
          PrecedesAsymmetric(key, asc, a[j], a[k]);
        } else {
          PrecedesIrreflexive(key, asc, a[j], a[j]);
        }
      }
    } else {
      PrecedesIrreflexive(key, asc, a[m], a[m]);
    }
  }

  /** The scan started at lo ends on the first of the records from lo on
      that come first. */
  lemma {:induction false} ScanMinIsFirstMin(key: SortKey, asc: bool, a: seq<Outfit>, lo: int, j: int, m: int)
    requires 0 <= lo <= m < j <= |a|
    requires forall k :: lo <= k < j ==> !Precedes(key, asc, a[k], a[m])
    requires forall k :: lo <= k < m ==> Precedes(key, asc, a[m], a[k])
    ensures IsFirstMinFrom(key, asc, a, lo, ScanMin(key, asc, a, j, m))
    decreases |a| - j
  {
    if j < |a| {
      ScanStep(key, asc, a, lo, j, m);
      ScanMinIsFirstMin(key, asc, a, lo, j + 1, if Precedes(key, asc, a[j], a[m]) then j else m);
    }
  }

  /** The scan from lo: its result is the first minimum from lo on. */
  lemma ScanMinFromIsFirstMin(key: SortKey, asc: bool, a: seq<Outfit>, lo: int)
    requires 0 <= lo < |a|
    ensures IsFirstMinFrom(key, asc, a, lo, ScanMin(key, asc, a, lo + 1, lo))
  {
    PrecedesIrreflexive(key, asc, a[lo], a[lo]);
    ScanMinIsFirstMin(key, asc, a, lo, lo + 1, lo);
  }

  /** s with the records at i and j exchanged. */
  function Swap(s: seq<Outfit>, i: int, j: int): (r: seq<Outfit>)
    requires 0 <= i < |s| && 0 <= j < |s|
    ensures |r| == |s|
  {
    seq(|s|, k requires 0 <= k < |s| => s[if k == i then j else if k == j then i else k])
  }

  /** Exchanging two records loses none. */
  lemma SwapPermutation(s: seq<Outfit>, i: int, j: int)
    requires 0 <= i < |s| && 0 <= j < |s|
    ensures multiset(Swap(s, i, j)) == multiset(s)
  {
    SwapIsExchange(s, i, j);
  }

  /** The exchange is Go's tuple assignment: the record at j is written to
      i, then the old record at i is written to j. */
  lemma SwapIsExchange(s: seq<Outfit>, i: int, j: int)
    requires 0 <= i < |s| && 0 <= j < |s|
    ensures Swap(s, i, j) == s[i := s[j]][j := s[i]]
  {
    assert forall k :: 0 <= k < |s| ==> Swap(s, i, j)[k] == s[i := s[j]][j := s[i]][k];
  }

  /** Where each record of s ends up after the exchange. */
  lemma SwapAt(s: seq<Outfit>, i: int, j: int)
    requires 0 <= i < |s| && 0 <= j < |s|
    ensures forall k :: 0 <= k < |s| ==>
      Swap(s, i, j)[k] == s[if k == i then j else if k == j then i else k]
  {
  }

  /** One round of the outer loop: the scan from position i picks a record
      and it is exchanged with the one at i. */
  function SelectRound(key: SortKey, asc: bool, a: seq<Outfit>, i: int): (r: seq<Outfit>)
    requires 0 <= i < |a|
    ensures |r| == |a|
  {
    Swap(a, i, ScanMin(key, asc, a, i + 1, i))
  }

  /** The outer loop of the selection sort: the live sequence after the
      rounds for positions 0 .. i - 1. */
  function SelectionPasses(key: SortKey, asc: bool, s: seq<Outfit>, i: nat): (r: seq<Outfit>)
    requires i < |s| || i == 0
    ensures |r| == |s|
    decreases i
  {
    if i == 0 then s
    else SelectRound(key, asc, SelectionPasses(key, asc, s, i - 1), i - 1)
  }

  /** What the selection sort computes: the rounds for every position but
      the last. */
  function SelectionSorted(key: SortKey, asc: bool, s: seq<Outfit>): (r: seq<Outfit>)
    ensures |r| == |s|
  {
    SelectionPasses(key, asc, s, if |s| == 0 then 0 else |s| - 1)
  }

  /** A round only exchanges two records. */
  lemma SelectRoundPermutation(key: SortKey, asc: bool, a: seq<Outfit>, i: int)
    requires 0 <= i < |a|
    ensures multiset(SelectRound(key, asc, a, i)) == multiset(a)
  {
    SwapPermutation(a, i, ScanMin(key, asc, a, i + 1, i));
  }

  lemma {:induction false} SelectionPassesPermutation(key: SortKey, asc: bool, s: seq<Outfit>, i: nat)
    requires i < |s| || i == 0
    ensures multiset(SelectionPasses(key, asc, s, i)) == multiset(s)
    decreases i
  {
    if i > 0 {
      SelectionPassesPermutation(key, asc, s, i - 1);
      SelectionPassStep(key, asc, s, i);
    }
  }

  /** Round i - 1 keeps the records of the sequence before it. */
  lemma SelectionPassStep(key: SortKey, asc: bool, s: seq<Outfit>, i: nat)
    requires 0 < i < |s|
    ensures multiset(SelectionPasses(key, asc, s, i)) == multiset(SelectionPasses(key, asc, s, i - 1))
  {
    SelectRoundPermutation(key, asc, SelectionPasses(key, asc, s, i - 1), i - 1);
  }

  /** The invariant of the outer loop after i rounds: the first i records
      are ordered and none of the later ones strictly precedes any of them. */
  ghost predicate SelectionInvariant(key: SortKey, asc: bool, r: seq<Outfit>, i: int)
  {
    && (forall p, q :: 0 <= p < q < i && q < |r| ==> !Precedes(key, asc, r[q], r[p]))
    && (forall p, q :: 0 <= p < i <= q < |r| ==> !Precedes(key, asc, r[q], r[p]))
  }

  /** One round keeps the invariant. */
  lemma SelectionRound(key: SortKey, asc: bool, a: seq<Outfit>, i: int)
    requires 0 < i < |a|
    requires SelectionInvariant(key, asc, a, i - 1)
    ensures SelectionInvariant(key, asc, SelectRound(key, asc, a, i - 1), i)
  {
    ScanMinFromIsFirstMin(key, asc, a, i - 1);
    SwapFirstMin(key, asc, a, i, ScanMin(key, asc, a, i, i - 1));
  }

  /** Swapping the first minimum of the records from i - 1 on into place
      i - 1 extends the ordered prefix by one. */
  lemma SwapFirstMin(key: SortKey, asc: bool, a: seq<Outfit>, i: int, m: int)
    requires 0 < i < |a|
    requires SelectionInvariant(key, asc, a, i - 1)
    requires IsFirstMinFrom(key, asc, a, i - 1, m)
    ensures SelectionInvariant(key, asc, Swap(a, i - 1, m), i)
  {
    var b := Swap(a, i - 1, m);
    SwapAt(a, i - 1, m);
    forall p, q | 0 <= p < q < i && q < |b|
      ensures !Precedes(key, asc, b[q], b[p])
    {
      assert b[p] == a[p];
      assert b[q] == a[if q < i - 1 then q else m];
    }
    forall p, q | 0 <= p < i <= q < |b|
      ensures !Precedes(key, asc, b[q], b[p])
    {
      assert b[q] == a[if q == m then i - 1 else q];
      assert b[p] == a[if p < i - 1 then p else m];
    }
  }

  lemma {:induction false} SelectionPassesInvariant(key: SortKey, asc: bool, s: seq<Outfit>, i: nat)
    requires i < |s| || i == 0
    ensures SelectionInvariant(key, asc, SelectionPasses(key, asc, s, i), i)
    decreases i
  {
    if i > 0 {
      SelectionPassesInvariant(key, asc, s, i - 1);
      SelectionRound(key, asc, SelectionPasses(key, asc, s, i - 1), i);
    }
  }

  /** The selection sort leaves its records ordered. */
  lemma SelectionSortedOrdered(key: SortKey, asc: bool, s: seq<Outfit>)
    ensures Ordered(key, asc, SelectionSorted(key, asc, s))
  {
    if |s| > 0 {
      SelectionPassesInvariant(key, asc, s, |s| - 1);
    }
  }

  /** The selection sort is a permutation of its input. */
  lemma SelectionSortedPermutation(key: SortKey, asc: bool, s: seq<Outfit>)
    ensures multiset(SelectionSorted(key, asc, s)) == multiset(s)
  {
    SelectionPassesPermutation(key, asc, s, if |s| == 0 then 0 else |s| - 1);
  }

  /** On ordered records the scan never moves off its first choice. */
  lemma {:induction false} ScanMinOfOrdered(key: SortKey, asc: bool, a: seq<Outfit>, j: int, m: int)
    requires Ordered(key, asc, a) && 0 <= m < j <= |a|
    ensures ScanMin(key, asc, a, j, m) == m
    decreases |a| - j
  {
    if j < |a| {
      ScanMinOfOrdered(key, asc, a, j + 1, m);
    }
  }

  lemma {:induction false} SelectionPassesOfOrdered(key: SortKey, asc: bool, s: seq<Outfit>, i: nat)
    requires Ordered(key, asc, s) && (i < |s| || i == 0)
    ensures SelectionPasses(key, asc, s, i) == s
    decreases i
  {
    if i > 0 {
      SelectionPassesOfOrdered(key, asc, s, i - 1);
      SelectionPassOfOrdered(key, asc, s, i);
    }
  }

  /** Round i - 1 leaves ordered records as the earlier rounds left them. */
  lemma SelectionPassOfOrdered(key: SortKey, asc: bool, s: seq<Outfit>, i: nat)
    requires Ordered(key, asc, s) && 0 < i < |s|
    requires SelectionPasses(key, asc, s, i - 1) == s
    ensures SelectionPasses(key, asc, s, i) == s
  {
    SelectRoundOfOrdered(key, asc, s, i - 1);
  }

  /** A round on ordered records exchanges a record with itself. */
  lemma SelectRoundOfOrdered(key: SortKey, asc: bool, a: seq<Outfit>, i: int)
    requires Ordered(key, asc, a) && 0 <= i < |a|
    ensures SelectRound(key, asc, a, i) == a
  {
    ScanMinOfOrdered(key, asc, a, i + 1, i);
    assert Swap(a, i, i) == a;
  }

  /** Input that is already ordered comes out unchanged. */
  lemma SelectionSortedOfOrdered(key: SortKey, asc: bool, s: seq<Outfit>)
    requires Ordered(key, asc, s)
    ensures SelectionSorted(key, asc, s) == s
  {
    SelectionPassesOfOrdered(key, asc, s, if |s| == 0 then 0 else |s| - 1);
  }

  // ---------------------------------------------------------------------
  // Sorting twice
  // ---------------------------------------------------------------------

  /** A second insertion sort in the same direction changes nothing. */
  lemma InsertionSortedIdempotent(key: SortKey, asc: bool, s: seq<Outfit>)
    ensures InsertionSorted(key, asc, InsertionSorted(key, asc, s)) == InsertionSorted(key, asc, s)
  {
    InsertionSortedOrdered(key, asc, s);
    InsertionSortedOfOrdered(key, asc, InsertionSorted(key, asc, s));
  }

  /** A second selection sort in the same direction changes nothing. */
  lemma SelectionSortedIdempotent(key: SortKey, asc: bool, s: seq<Outfit>)
    ensures SelectionSorted(key, asc, SelectionSorted(key, asc, s)) == SelectionSorted(key, asc, s)
  {
    SelectionSortedOrdered(key, asc, s);
    SelectionSortedOfOrdered(key, asc, SelectionSorted(key, asc, s));
  }

  // ---------------------------------------------------------------------
  // Sorting one way, then the other
  // ---------------------------------------------------------------------

  /** s back to front. */
  function Reverse(s: seq<Outfit>): (r: seq<Outfit>)
    ensures |r| == |s|
    ensures forall i :: 0 <= i < |s| ==> r[i] == s[|s| - 1 - i]
    decreases |s|
  {
    if s == [] then [] else [s[|s| - 1]] + Reverse(s[..|s| - 1])
  }

  lemma {:induction false} ReversePermutation(s: seq<Outfit>)
    ensures multiset(Reverse(s)) == multiset(s)
    decreases |s|
  {
    if s != [] {
      var init := s[..|s| - 1];
      assert s == init + [s[|s| - 1]];
      ReversePermutation(init);
    }
  }

  /** Read back to front, records ordered one way are ordered the other. */
  lemma ReverseOrdered(key: SortKey, asc: bool, s: seq<Outfit>)
    requires Ordered(key, asc, s)
    ensures Ordered(key, !asc, Reverse(s))
  {
    var r := Reverse(s);
    forall i, j | 0 <= i < j < |r|
      ensures !Precedes(key, !asc, r[j], r[i])
    {
      assert r[j] == s[|s| - 1 - j] && r[i] == s[|s| - 1 - i];
    }
  }

  /** Records with the same key are the same record: no two different
      records of s tie. */
  ghost predicate KeysIdentify(key: SortKey, s: seq<Outfit>)
  {
    forall x, y :: x in s && y in s && KeyOf(key, x) == KeyOf(key, y) ==> x == y
  }

  lemma KeysIdentifyPermutation(key: SortKey, s: seq<Outfit>, t: seq<Outfit>)
    requires multiset(s) == multiset(t) && KeysIdentify(key, s)
    ensures KeysIdentify(key, t)
  {
    forall x, y | x in t && y in t
      ensures KeyOf(key, x) == KeyOf(key, y) ==> x == y
    {
      assert x in multiset(t) && y in multiset(t);
    }
  }

  /** Without ties, there is only one way to order a collection of records:
      two ordered permutations of each other are equal. */
  lemma {:induction false} OrderedUnique(key: SortKey, asc: bool, a: seq<Outfit>, b: seq<Outfit>)
    requires Ordered(key, asc, a) && Ordered(key, asc, b)
    requires multiset(a) == multiset(b) && KeysIdentify(key, a)
    ensures a == b
    decreases |a|
  {
    if a != [] {
      LastAgrees(key, asc, a, b);
      var n := |a| - 1;
      var a', b' := a[..n], b[..n];
      DropLast(a, b);
      OrderedPrefix(key, asc, a);
      OrderedPrefix(key, asc, b);
      assert KeysIdentify(key, a') by {
        forall x | x in a'
          ensures x in a
        {
        }
      }
      OrderedUnique(key, asc, a', b');
    }
  }

  /** Permutations of each other that end on the same record are still
      permutations without it. */
  lemma DropLast(a: seq<Outfit>, b: seq<Outfit>)
    requires multiset(a) == multiset(b) && a != [] && |b| == |a| && b[|a| - 1] == a[|a| - 1]
    ensures multiset(a[..|a| - 1]) == multiset(b[..|a| - 1])
  {
    var n := |a| - 1;
    MultisetRemove(a, n);
    MultisetRemove(b, n);
    assert a[..n] + a[n + 1..] == a[..n] && b[..n] + b[n + 1..] == b[..n];
  }

  /** Two ordered permutations of each other without ties end on the same
      record. */
  lemma LastAgrees(key: SortKey, asc: bool, a: seq<Outfit>, b: seq<Outfit>)
    requires Ordered(key, asc, a) && Ordered(key, asc, b)
    requires multiset(a) == multiset(b) && KeysIdentify(key, a) && a != []
    ensures |b| == |a| && b[|a| - 1] == a[|a| - 1]
  {
    assert |b| == |multiset(b)| == |multiset(a)| == |a|;
    var n := |a| - 1;
    if b[n] != a[n] {
      assert b[n] in multiset(a) && a[n] in multiset(b);
      var p := IndexOf(a, b[n]);
      var q := IndexOf(b, a[n]);
      PrecedesTotal(key, asc, a[p], a[n]);
    }
  }

  /** An insertion sort the other way reverses records sorted one way, when
      no two of them tie. */
  lemma InsertionSortedReversed(key: SortKey, asc: bool, s: seq<Outfit>)
    requires KeysIdentify(key, s)
    ensures var t := InsertionSorted(key, asc, s);
      InsertionSorted(key, !asc, t) == Reverse(t)
  {
    var t := InsertionSorted(key, asc, s);
    var r := InsertionSorted(key, !asc, t);
    InsertionSortedOrdered(key, asc, s);
    InsertionSortedPermutation(key, asc, s);
    InsertionSortedOrdered(key, !asc, t);
    InsertionSortedPermutation(key, !asc, t);
    ReverseOrdered(key, asc, t);
    ReversePermutation(t);
    KeysIdentifyPermutation(key, s, r);
    OrderedUnique(key, !asc, r, Reverse(t));
  }

  /** A selection sort the other way reverses records sorted one way, when
      no two of them tie: sorting by name ascending and then descending
      gives the ascending order back to front when the names are distinct
      ignoring case. */
  lemma SelectionSortedReversed(key: SortKey, asc: bool, s: seq<Outfit>)
    requires KeysIdentify(key, s)
    ensures var t := SelectionSorted(key, asc, s);
      SelectionSorted(key, !asc, t) == Reverse(t)
  {
    var t := SelectionSorted(key, asc, s);
    var r := SelectionSorted(key, !asc, t);
    SelectionSortedOrdered(key, asc, s);
    SelectionSortedPermutation(key, asc, s);
    SelectionSortedOrdered(key, !asc, t);
    SelectionSortedPermutation(key, !asc, t);
    ReverseOrdered(key, asc, t);
    ReversePermutation(t);
    KeysIdentifyPermutation(key, s, r);
    OrderedUnique(key, !asc, r, Reverse(t));
  }
}
