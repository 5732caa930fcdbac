/** The outfit record, the four sort keys with their orders, and the
    invariants the store keeps over its live records. */
module Outfits {
  import opened Text

  /** Capacity of the fixed store (MAX_OUTFITS). */
  const MaxOutfits: nat := 100

  datatype Option<T> = None | Some(value: T)

  /** One clothing item. The timestamp of its last use is an integer instant;
      a smaller value is an earlier time. */
  datatype Outfit = Outfit(
    id: int,
    name: string,
    category: string,
    color: string,
    season: string,
    description: string,
    formality: int,
    lastUsed: int)

  /** The zero value of the record, which fills unused slots of the store. */
  const EmptyOutfit := Outfit(0, "", "", "", "", "", 0, 0)

  /** The fields the store can be sorted by. */
  datatype SortKey = ByName | ByCategory | ByFormality | ByLastUsed

  /** The value a record is compared by: lower-cased text for name and
      category, a number for formality and last use. */
  datatype KeyValue = Str(text: string) | Num(n: int)

  function KeyOf(key: SortKey, o: Outfit): (v: KeyValue)
    ensures v.Str? <==> key in {ByName, ByCategory}
  {
    match key
    case ByName => Str(Lower(o.name))
    case ByCategory => Str(Lower(o.category))
    case ByFormality => Num(o.formality)
    case ByLastUsed => Num(o.lastUsed)
  }

  /** Strict order on key values of the same kind. */
  predicate ValueLess(a: KeyValue, b: KeyValue)
  {
    if a.Str? && b.Str? then LexLess(a.text, b.text)
    else if a.Num? && b.Num? then a.n < b.n
    else false
  }

  /** x must come strictly before y in a sort by key in the given direction:
      its key is smaller when ascending, larger when descending. */
  predicate Precedes(key: SortKey, asc: bool, x: Outfit, y: Outfit)
  {
    if asc then ValueLess(KeyOf(key, x), KeyOf(key, y))
    else ValueLess(KeyOf(key, y), KeyOf(key, x))
  }

  /** Precedes is, key by key, the comparison the Go sorts make: lower-cased
      name or category under Go's string order, formality and last use as
      numbers; descending swaps the operands. */
  lemma PrecedesCompares(key: SortKey, asc: bool, x: Outfit, y: Outfit)
    ensures key == ByName ==> (Precedes(key, asc, x, y) <==>
      if asc then LexLess(Lower(x.name), Lower(y.name)) else LexLess(Lower(y.name), Lower(x.name)))
    ensures key == ByCategory ==> (Precedes(key, asc, x, y) <==>
      if asc then LexLess(Lower(x.category), Lower(y.category)) else LexLess(Lower(y.category), Lower(x.category)))
    ensures key == ByFormality ==> (Precedes(key, asc, x, y) <==>
      if asc then x.formality < y.formality else x.formality > y.formality)
    ensures key == ByLastUsed ==> (Precedes(key, asc, x, y) <==>
      if asc then x.lastUsed < y.lastUsed else x.lastUsed > y.lastUsed)
  {
  }

  /** s is ordered by key: no record strictly precedes an earlier one. With
      asc the keys are non-decreasing, otherwise non-increasing. */
  ghost predicate Ordered(key: SortKey, asc: bool, s: seq<Outfit>)
  {
    forall i, j :: 0 <= i < j < |s| ==> !Precedes(key, asc, s[j], s[i])
  }

  lemma PrecedesIrreflexive(key: SortKey, asc: bool, x: Outfit, y: Outfit)
    requires KeyOf(key, x) == KeyOf(key, y)
    ensures !Precedes(key, asc, x, y)
  {
    if KeyOf(key, x).Str? {
      LexLessIrreflexive(KeyOf(key, x).text);
    }
  }

  lemma PrecedesTransitive(key: SortKey, asc: bool, x: Outfit, y: Outfit, z: Outfit)
    requires Precedes(key, asc, x, y) && Precedes(key, asc, y, z)
    ensures Precedes(key, asc, x, z)
  {
    if KeyOf(key, x).Str? {
      var a, b, c := KeyOf(key, x).text, KeyOf(key, y).text, KeyOf(key, z).text;
      if asc { LexLessTransitive(a, b, c); } else { LexLessTransitive(c, b, a); }
    }
  }

  lemma PrecedesAsymmetric(key: SortKey, asc: bool, x: Outfit, y: Outfit)
    requires Precedes(key, asc, x, y)
    ensures !Precedes(key, asc, y, x)
  {
    if Precedes(key, asc, y, x) {
      PrecedesTransitive(key, asc, x, y, x);
      PrecedesIrreflexive(key, asc, x, x);
    }
  }

  /** Two records either have the same key or one precedes the other. */
  lemma PrecedesTotal(key: SortKey, asc: bool, x: Outfit, y: Outfit)
    ensures KeyOf(key, x) == KeyOf(key, y) || Precedes(key, asc, x, y) || Precedes(key, asc, y, x)
  {
    if KeyOf(key, x).Str? && KeyOf(key, x) != KeyOf(key, y) {
      LexLessTotal(KeyOf(key, x).text, KeyOf(key, y).text);
    }
  }

  /** If x precedes z then every y precedes z or is preceded by x. */
  lemma PrecedesSplit(key: SortKey, asc: bool, x: Outfit, y: Outfit, z: Outfit)
    requires Precedes(key, asc, x, z)
    ensures Precedes(key, asc, x, y) || Precedes(key, asc, y, z)
  {
    PrecedesTotal(key, asc, x, y);
    if KeyOf(key, x) == KeyOf(key, y) {
      assert Precedes(key, asc, y, z);
    } else if Precedes(key, asc, y, x) {
      PrecedesTransitive(key, asc, y, x, z);
    }
  }

  /** An ascending order by category, read as the comparisons the binary
      search makes: every earlier category is equal under EqualFold to a later
      one or lower-cases to a strictly smaller string. */
  lemma OrderedByCategory(s: seq<Outfit>, i: int, j: int)
    requires Ordered(ByCategory, true, s)
    requires 0 <= i <= j < |s|
    ensures EqualFold(s[i].category, s[j].category) || LexLess(Lower(s[i].category), Lower(s[j].category))
  {
    if i < j {
      PrecedesTotal(ByCategory, true, s[i], s[j]);
    }
  }

  /** The records of s that share e's key, in the order they occur in s.
      A sort is stable exactly when it leaves every such subsequence alone. */
  function TieClass(key: SortKey, e: Outfit, s: seq<Outfit>): seq<Outfit>
    decreases |s|
  {
    if s == [] then []
    else TieClass(key, e, s[..|s| - 1])
         + (if KeyOf(key, s[|s| - 1]) == KeyOf(key, e) then [s[|s| - 1]] else [])
  }

  lemma {:induction false} TieClassAppend(key: SortKey, e: Outfit, a: seq<Outfit>, b: seq<Outfit>)
    ensures TieClass(key, e, a + b) == TieClass(key, e, a) + TieClass(key, e, b)
    decreases |b|
  {
    if b == [] {
      assert a + b == a;
    } else {
      var b' := b[..|b| - 1];
      assert (a + b)[..|a + b| - 1] == a + b';
      TieClassAppend(key, e, a, b');
    }
  }

  lemma TieClassSingle(key: SortKey, e: Outfit, x: Outfit)
    ensures TieClass(key, e, [x]) == if KeyOf(key, x) == KeyOf(key, e) then [x] else []
  {
    assert [x][..0] == [];
  }

  /** Records with equal keys keep their relative order from s to t. */
  ghost predicate Stable(key: SortKey, s: seq<Outfit>, t: seq<Outfit>)
  {
    forall e :: TieClass(key, e, t) == TieClass(key, e, s)
  }

  /** No two live records share an id. */
  ghost predicate UniqueIds(s: seq<Outfit>)
  {
    forall i, j :: 0 <= i < j < |s| ==> s[i].id != s[j].id
  }

  /** The invariants the store keeps over its live records: distinct ids and
      a formality tier in 1..3. */
  ghost predicate WellFormed(s: seq<Outfit>)
  {
    UniqueIds(s) && forall i :: 0 <= i < |s| ==> 1 <= s[i].formality <= 3
  }

  /** Removing the record at p keeps the remaining records well formed and
      their ids distinct; every remaining record sits at some other position
      of s. */
  lemma {:induction false} RemoveAt(s: seq<Outfit>, p: int)
    requires 0 <= p < |s|
    ensures UniqueIds(s) ==> UniqueIds(s[..p] + s[p + 1..])
    ensures WellFormed(s) ==> WellFormed(s[..p] + s[p + 1..])
    ensures var r := s[..p] + s[p + 1..];
      forall i :: 0 <= i < |r| ==> r[i] == s[if i < p then i else i + 1]
  {
    var r := s[..p] + s[p + 1..];
    forall i | 0 <= i < |r|
      ensures r[i] == s[if i < p then i else i + 1]
    {
    }
  }

  /** Once the record at p is removed, no remaining record has its id. */
  lemma RemovedIdGone(s: seq<Outfit>, p: int, r: seq<Outfit>)
    requires 0 <= p < |s| && UniqueIds(s) && r == s[..p] + s[p + 1..]
    ensures forall k :: 0 <= k < |r| ==> r[k].id != s[p].id
  {
    RemoveAt(s, p);
  }

  lemma MultisetRemove(s: seq<Outfit>, p: int)
    requires 0 <= p < |s|
    ensures multiset(s[..p] + s[p + 1..]) == multiset(s) - multiset{s[p]}
  {
    assert s == s[..p] + [s[p]] + s[p + 1..];
  }

  /** Reordering records cannot introduce a duplicate id. */
  lemma {:induction false} UniqueIdsPermutation(s: seq<Outfit>, t: seq<Outfit>)
    requires multiset(s) == multiset(t) && UniqueIds(s)
    ensures UniqueIds(t)
    decreases |t|
  {
    if t != [] {
      var x := t[|t| - 1];
      var t' := t[..|t| - 1];
      assert t == t' + [x];
      var p := IndexOf(s, x);
      var s' := s[..p] + s[p + 1..];
      MultisetRemove(s, p);
      MultisetRemove(t, |t| - 1);
      assert t[..|t| - 1] + t[|t|..] == t';
      RemoveDistinct(s, p);
      UniqueIdsPermutation(s', t');
      forall i | 0 <= i < |t'|
        ensures t'[i].id != x.id
      {
        assert t'[i] in multiset(s');
      }
      UniqueIdsSnoc(t', x);
    }
  }

  /** A position of x in s, for an x that s holds. */
  lemma IndexOf(s: seq<Outfit>, x: Outfit) returns (p: int)
    requires x in multiset(s)
    ensures 0 <= p < |s| && s[p] == x
  {
    assert x in s;
    p :| 0 <= p < |s| && s[p] == x;
  }

  /** Without its record at p, s keeps distinct ids, none of them s[p]'s. */
  lemma RemoveDistinct(s: seq<Outfit>, p: int)
    requires 0 <= p < |s| && UniqueIds(s)
    ensures UniqueIds(s[..p] + s[p + 1..])
    ensures forall y: Outfit :: y in multiset(s[..p] + s[p + 1..]) ==> y.id != s[p].id
  {
    RemoveAt(s, p);
    var r := s[..p] + s[p + 1..];
    forall y: Outfit | y in multiset(r)
      ensures y.id != s[p].id
    {
      assert y in r;
      var q :| 0 <= q < |r| && r[q] == y;
      assert r[q] == s[if q < p then q else q + 1];
    }
  }

  lemma UniqueIdsSnoc(s: seq<Outfit>, x: Outfit)
    requires UniqueIds(s)
    requires forall i :: 0 <= i < |s| ==> s[i].id != x.id
    ensures UniqueIds(s + [x])
  {
  }

  /** Reordering records keeps them well formed. */
  lemma WellFormedPermutation(s: seq<Outfit>, t: seq<Outfit>)
    requires multiset(s) == multiset(t) && WellFormed(s)
    ensures WellFormed(t)
  {
    UniqueIdsPermutation(s, t);
    forall i | 0 <= i < |t|
      ensures 1 <= t[i].formality <= 3
    {
      assert t[i] in multiset(s);
    }
  }

  /** Replacing a record by one with the same id and a tier in 1..3 keeps
      the records well formed. */
  lemma ReplaceWellFormed(s: seq<Outfit>, i: int, o: Outfit)
    requires WellFormed(s) && 0 <= i < |s|
    requires o.id == s[i].id && 1 <= o.formality <= 3
    ensures WellFormed(s[i := o])
  {
  }

  /** editOutfit applied to one record: each text field that is given
      non-blank replaces the old one, and the formality changes only to a
      tier in 1..3. */
  function Edited(before: Outfit, name: string, category: string, color: string, season: string,
                  description: string, formality: Option<int>): (after: Outfit)
    ensures after.id == before.id && after.lastUsed == before.lastUsed
    ensures after.name == (if name == "" then before.name else name)
    ensures after.category == (if category == "" then before.category else category)
    ensures after.color == (if color == "" then before.color else color)
    ensures after.season == (if season == "" then before.season else season)
    ensures after.description == (if description == "" then before.description else description)
    ensures formality.Some? && 1 <= formality.value <= 3 ==> after.formality == formality.value
    ensures (formality.None? || formality.value < 1 || formality.value > 3) ==> after.formality == before.formality
    ensures 1 <= before.formality <= 3 ==> 1 <= after.formality <= 3
  {
    var o1 := if name != "" then before.(name := name) else before;
    var o2 := if category != "" then o1.(category := category) else o1;
    var o3 := if color != "" then o2.(color := color) else o2;
    var o4 := if season != "" then o3.(season := season) else o3;
    var o5 := if description != "" then o4.(description := description) else o4;
    if formality.Some? && 1 <= formality.value <= 3 then o5.(formality := formality.value) else o5
  }

  /** The highest live id, or 0 when the store is empty. */
  function MaxId(s: seq<Outfit>): (m: int)
    ensures m >= 0
    ensures forall k :: 0 <= k < |s| ==> s[k].id <= m
    ensures m == 0 || exists k :: 0 <= k < |s| && s[k].id == m
    decreases |s|
  {
    if s == [] then 0
    else
      var m := MaxId(s[..|s| - 1]);
      if s[|s| - 1].id > m then s[|s| - 1].id else m
  }

  /** Ids can come back: adding a record, deleting it and adding again
      hands out the deleted record's id a second time. */
  lemma IdReusedAfterDelete(s: seq<Outfit>, x: Outfit)
    requires x.id == MaxId(s) + 1
    ensures var t := s + [x];
      MaxId(t[..|t| - 1] + t[|t|..]) + 1 == x.id
  {
    var t := s + [x];
    assert t[..|t| - 1] + t[|t|..] == s;
  }

  /** The formality an added record gets: the input when it is a tier in
      1..3, otherwise 1 (casual). */
  function CoerceFormality(input: Option<int>): (f: int)
    ensures 1 <= f <= 3
    ensures input.Some? && 1 <= input.value <= 3 ==> f == input.value
    ensures (input.None? || input.value < 1 || input.value > 3) ==> f == 1
  {
    if input.Some? && 1 <= input.value <= 3 then input.value else 1
  }

  /** k is the record PlanOotd picks for tier f: it has that tier, no record
      of the tier was used earlier, and every earlier record of the tier was
      used strictly later (the first one wins a tie). */
  ghost predicate IsOldestOfFormality(s: seq<Outfit>, f: int, k: int)
  {
    && 0 <= k < |s|
    && s[k].formality == f
    && (forall j :: 0 <= j < |s| && s[j].formality == f ==> s[k].lastUsed <= s[j].lastUsed)
    && (forall j :: 0 <= j < k && s[j].formality == f ==> s[k].lastUsed < s[j].lastUsed)
  }

  /** The choice is determined: one tier has at most one oldest record in
      this sense, so ties on the last use go to the first record. */
  lemma OldestOfFormalityUnique(s: seq<Outfit>, f: int, k: int, k': int)
    requires IsOldestOfFormality(s, f, k) && IsOldestOfFormality(s, f, k')
    ensures k == k'
  {
  }
}
