/** The in-memory outfit store: a fixed array of MaxOutfits records whose
    first `count` slots are live, with the searches, sorts and updates that
    work on that live prefix in place. */
module Store {
  import opened Text
  import opened Outfits
  import opened SortSpec

  class OutfitStore {
    /** The fixed-capacity array (outfits) and the live count (nOutfits). */
    var outfits: array<Outfit>
    var count: nat

    ghost predicate Valid()
      reads this
    {
      outfits.Length == MaxOutfits && count <= MaxOutfits
    }

    /** The live records, in store order. */
    ghost function Contents(): seq<Outfit>
      reads this, outfits
      requires Valid()
    {
      outfits[..count]
    }

    /** An empty store, every slot holding the zero record. */
    constructor ()
      ensures Valid() && fresh(outfits)
      ensures Contents() == []
      ensures forall k :: 0 <= k < outfits.Length ==> outfits[k] == EmptyOutfit
    {
      outfits := new Outfit[MaxOutfits](_ => EmptyOutfit);
      count := 0;
    }

    // -------------------------------------------------------------------
    // Searches
    // -------------------------------------------------------------------

    /** The first live index holding id, or -1 (cariIdxByID). */
    method FindIndexById(id: int) returns (idx: int)
      requires Valid()
      ensures idx == -1 <==> forall k :: 0 <= k < count ==> outfits[k].id != id
      ensures idx != -1 ==> 0 <= idx < count && outfits[idx].id == id
      ensures forall k :: 0 <= k < idx ==> outfits[k].id != id
    {
      var i := 0;
      while i < count
        invariant 0 <= i <= count
        invariant forall k :: 0 <= k < i ==> outfits[k].id != id
      {
        if outfits[i].id == id {
          return i;
        }
        i := i + 1;
      }
      return -1;
    }

    /** The first live index whose name equals name ignoring case, or -1
        (seqSearchNama). */
    method SearchByName(name: string) returns (idx: int)
      requires Valid()
      ensures idx == -1 <==> forall k :: 0 <= k < count ==> !EqualFold(outfits[k].name, name)
      ensures idx != -1 ==> 0 <= idx < count && EqualFold(outfits[idx].name, name)
      ensures forall k :: 0 <= k < idx ==> !EqualFold(outfits[k].name, name)
    {
      var i := 0;
      while i < count
        invariant 0 <= i <= count
        invariant forall k :: 0 <= k < i ==> !EqualFold(outfits[k].name, name)
      {
        if EqualFold(outfits[i].name, name) {
          return i;
        }
        i := i + 1;
      }
      return -1;
    }

    /** Every live index whose color equals color ignoring case, in
        increasing order (seqSearchWarna). */
    method SearchByColor(color: string) returns (found: seq<int>)
      requires Valid()
      ensures forall p :: 0 <= p < |found| ==> 0 <= found[p] < count && EqualFold(outfits[found[p]].color, color)
      ensures forall k :: 0 <= k < count && EqualFold(outfits[k].color, color) ==> k in found
      ensures forall p, q :: 0 <= p < q < |found| ==> found[p] < found[q]
    {
      found := [];
      var i := 0;
      while i < count
        invariant 0 <= i <= count
        invariant forall p :: 0 <= p < |found| ==> 0 <= found[p] < i && EqualFold(outfits[found[p]].color, color)
        invariant forall k :: 0 <= k < i && EqualFold(outfits[k].color, color) ==> k in found
        invariant forall p, q :: 0 <= p < q < |found| ==> found[p] < found[q]
      {
        if EqualFold(outfits[i].color, color) {
          found := found + [i];
        }
        i := i + 1;
      }
    }

    /** Binary search by category (binarySearchKategori). Whatever the order
        of the store, a returned index is a live record of that category.
        When the live records are sorted ascending by category, the result is
        the first such record, and -1 exactly when there is none. */
    method BinarySearchCategory(category: string) returns (idx: int)
      requires Valid()
      ensures -1 <= idx < count
      ensures idx != -1 ==> EqualFold(Contents()[idx].category, category)
      ensures Ordered(ByCategory, true, Contents()) ==>
        (idx == -1 <==> forall k :: 0 <= k < count ==> !EqualFold(Contents()[k].category, category))
      ensures Ordered(ByCategory, true, Contents()) ==>
        forall k :: 0 <= k < idx ==> !EqualFold(Contents()[k].category, category)
    {
      ghost var s := Contents();
      ghost var sorted := Ordered(ByCategory, true, s);
      ghost var c := Lower(category);
      var low, high := 0, count - 1;
      while low <= high
        invariant 0 <= low <= high + 1 <= count
        invariant sorted ==> forall k :: 0 <= k < low ==> LexLess(Lower(s[k].category), c)
        invariant sorted ==> forall k :: high < k < |s| ==> LexLess(c, Lower(s[k].category))
        decreases high - low
      {
        var mid := (low + high) / 2;
        if EqualFold(outfits[mid].category, category) {
          mid := RunStart(category, low, mid);
          if sorted {
            FirstOfRun(s, category, low, mid);
          }
          return mid;
        } else if LexLess(Lower(outfits[mid].category), Lower(category)) {
          if sorted {
            BelowKey(s, c, mid);
          }
          low := mid + 1;
        } else {
          if sorted {
            AboveKey(s, category, mid);
          }
          high := mid - 1;
        }
      }
      if sorted {
        NotFound(s, category, low);
      }
      return -1;
    }

    /** The inner loop of the binary search: from a match at mid, step left
        while the record before is a match too, but not past low. */
    method RunStart(category: string, low: int, mid: int) returns (first: int)
      requires Valid() && 0 <= low <= mid < count
      requires EqualFold(outfits[mid].category, category)
      ensures low <= first <= mid
      ensures forall k :: first <= k <= mid ==> EqualFold(outfits[k].category, category)
      ensures first == low || !EqualFold(outfits[first - 1].category, category)
    {
      first := mid;
      while first > low && EqualFold(outfits[first - 1].category, category)
        invariant low <= first <= mid
        invariant forall k :: first <= k <= mid ==> EqualFold(outfits[k].category, category)
      {
        first := first - 1;
      }
    }

    /** The category search as it is offered to the user: sort ascending by
        category, then binary search. The result is the first live record of
        that category in the sorted store, or -1 when there is none. */
    method SortAndSearchCategory(category: string) returns (idx: int)
      requires Valid()
      modifies outfits
      ensures Valid()
      ensures Contents() == InsertionSorted(ByCategory, true, old(Contents()))
      ensures -1 <= idx < count
      ensures idx == -1 <==> forall k :: 0 <= k < count ==> !EqualFold(Contents()[k].category, category)
      ensures idx != -1 ==> EqualFold(Contents()[idx].category, category)
      ensures forall k :: 0 <= k < idx ==> !EqualFold(Contents()[k].category, category)
    {
      ghost var s := Contents();
      InsertionSort(ByCategory, true);
      InsertionSortedOrdered(ByCategory, true, s);
      idx := BinarySearchCategory(category);
    }

    // -------------------------------------------------------------------
    // Sorts
    // -------------------------------------------------------------------

    /** The inner loop of the selection sort: scanning the live records
        after position i for the first one that comes first, starting from
        the record at i. */
    method ScanFrom(key: SortKey, asc: bool, i: int) returns (idx: int)
      requires Valid() && 0 <= i < count
      ensures idx == ScanMin(key, asc, Contents(), i + 1, i)
    {
      ghost var a := Contents();
      idx := i;
      var j := i + 1;
      while j < count
        invariant i <= idx < j <= count
        invariant ScanMin(key, asc, a, j, idx) == ScanMin(key, asc, a, i + 1, i)
      {
        if Precedes(key, asc, outfits[j], outfits[idx]) {
          idx := j;
        }
        j := j + 1;
      }
    }

    /** Exchanges the live records at i and j. */
    method Exchange(i: int, j: int)
      requires Valid() && 0 <= i < count && 0 <= j < count
      modifies outfits
      ensures Valid()
      ensures Contents() == Swap(old(Contents()), i, j)
      ensures forall k {:trigger old(outfits[k])} :: count <= k < outfits.Length ==> outfits[k] == old(outfits[k])
    {
      ghost var a := Contents();
      outfits[i], outfits[j] := outfits[j], outfits[i];
      SwapOf(a, Contents(), i, j);
    }

    /** Selection sort of the live records in direction asc: each pass finds
        the first record that no later one strictly precedes and swaps it
        into place. */
    method SelectionSort(key: SortKey, asc: bool)
      requires Valid()
      modifies outfits
      ensures Valid()
      ensures Contents() == SelectionSorted(key, asc, old(Contents()))
      ensures forall k {:trigger old(outfits[k])} :: count <= k < outfits.Length ==> outfits[k] == old(outfits[k])
    {
      ghost var s := Contents();
      if count > 0 {
        for i := 0 to count - 1
          invariant Contents() == SelectionPasses(key, asc, s, i)
          invariant forall k {:trigger old(outfits[k])} :: count <= k < outfits.Length ==> outfits[k] == old(outfits[k])
        {
          SelectInto(key, asc, i);
        }
      }
    }

    /** One pass of the selection sort: the scan picks the record for
        position i and, when it is not already there, it is exchanged with
        the record at i. */
    method SelectInto(key: SortKey, asc: bool, i: int)
      requires Valid() && 0 <= i < count
      modifies outfits
      ensures Valid()
      ensures Contents() == SelectRound(key, asc, old(Contents()), i)
      ensures forall k {:trigger old(outfits[k])} :: count <= k < outfits.Length ==> outfits[k] == old(outfits[k])
    {
      ghost var a := Contents();
      var idx := ScanFrom(key, asc, i);
      if idx != i {
        Exchange(i, idx);
      } else {
        SwapSame(a, i);
      }
    }

    /** The inner loop of the insertion sort: the record at i is taken out
        and the records before it that it strictly precedes move one place
        right; then it fills the free slot. */
    method InsertAt(key: SortKey, asc: bool, i: int)
      requires Valid() && 1 <= i < count
      modifies outfits
      ensures Valid()
      ensures Contents() == Shift(key, asc, old(Contents()), old(outfits[i]), i - 1)
      ensures forall k {:trigger old(outfits[k])} :: count <= k < outfits.Length ==> outfits[k] == old(outfits[k])
    {
      ghost var a := Contents();
      var temp := outfits[i];
      var j := i - 1;
      while j >= 0 && Precedes(key, asc, temp, outfits[j])
        invariant -1 <= j < i
        invariant Shift(key, asc, Contents(), temp, j) == Shift(key, asc, a, temp, i - 1)
        invariant forall k {:trigger old(outfits[k])} :: count <= k < outfits.Length ==> outfits[k] == old(outfits[k])
      {
        ghost var b := Contents();
        outfits[j + 1] := outfits[j];
        UpdateOf(b, Contents(), j + 1, b[j]);
        j := j - 1;
      }
      ghost var b := Contents();
      outfits[j + 1] := temp;
      UpdateOf(b, Contents(), j + 1, temp);
    }

    /** Insertion sort of the live records in direction asc: each record is
        taken out and the records before it that it strictly precedes move
        one place right. */
    method InsertionSort(key: SortKey, asc: bool)
      requires Valid()
      modifies outfits
      ensures Valid()
      ensures Contents() == InsertionSorted(key, asc, old(Contents()))
      ensures forall k {:trigger old(outfits[k])} :: count <= k < outfits.Length ==> outfits[k] == old(outfits[k])
    {
      ghost var s := Contents();
      if count > 0 {
        for i := 1 to count
          invariant Contents() == InsertionPasses(key, asc, s, i)
          invariant forall k {:trigger old(outfits[k])} :: count <= k < outfits.Length ==> outfits[k] == old(outfits[k])
        {
          InsertAt(key, asc, i);
        }
        InsertionPassesAll(key, asc, s, count);
      }
    }

    /** Sort by name, ignoring case (selectionSortNama). */
    method SortByName(asc: bool)
      requires Valid()
      modifies outfits
      ensures Valid()
      ensures Contents() == SelectionSorted(ByName, asc, old(Contents()))
      ensures Ordered(ByName, asc, Contents())
      ensures multiset(Contents()) == multiset(old(Contents()))
      ensures old(Ordered(ByName, asc, Contents())) ==> Contents() == old(Contents())
      ensures old(WellFormed(Contents())) ==> WellFormed(Contents())
      ensures forall k {:trigger old(outfits[k])} :: count <= k < outfits.Length ==> outfits[k] == old(outfits[k])
    {
      ghost var s := Contents();
      SelectionSort(ByName, asc);
      SelectionSortedOrdered(ByName, asc, s);
      SelectionSortedPermutation(ByName, asc, s);
      if Ordered(ByName, asc, s) {
        SelectionSortedOfOrdered(ByName, asc, s);
      }
      if WellFormed(s) {
        WellFormedPermutation(s, Contents());
      }
    }

    /** Sort by category, ignoring case (insertionSortKategori); stable. */
    method SortByCategory(asc: bool)
      requires Valid()
      modifies outfits
      ensures Valid()
      ensures Contents() == InsertionSorted(ByCategory, asc, old(Contents()))
      ensures Ordered(ByCategory, asc, Contents())
      ensures multiset(Contents()) == multiset(old(Contents()))
      ensures Stable(ByCategory, old(Contents()), Contents())
      ensures old(Ordered(ByCategory, asc, Contents())) ==> Contents() == old(Contents())
      ensures old(WellFormed(Contents())) ==> WellFormed(Contents())
      ensures forall k {:trigger old(outfits[k])} :: count <= k < outfits.Length ==> outfits[k] == old(outfits[k])
    {
      ghost var s := Contents();
      InsertionSort(ByCategory, asc);
      InsertionSortedOrdered(ByCategory, asc, s);
      InsertionSortedPermutation(ByCategory, asc, s);
      InsertionSortedStable(ByCategory, asc, s);
      if Ordered(ByCategory, asc, s) {
        InsertionSortedOfOrdered(ByCategory, asc, s);
      }
      if WellFormed(s) {
        WellFormedPermutation(s, Contents());
      }
    }

    /** Sort by formality tier (selectionSortFormalitas). */
    method SortByFormality(asc: bool)
      requires Valid()
      modifies outfits
      ensures Valid()
      ensures Contents() == SelectionSorted(ByFormality, asc, old(Contents()))
      ensures Ordered(ByFormality, asc, Contents())
      ensures multiset(Contents()) == multiset(old(Contents()))
      ensures old(Ordered(ByFormality, asc, Contents())) ==> Contents() == old(Contents())
      ensures old(WellFormed(Contents())) ==> WellFormed(Contents())
      ensures forall k {:trigger old(outfits[k])} :: count <= k < outfits.Length ==> outfits[k] == old(outfits[k])
    {
      ghost var s := Contents();
      SelectionSort(ByFormality, asc);
      SelectionSortedOrdered(ByFormality, asc, s);
      SelectionSortedPermutation(ByFormality, asc, s);
      if Ordered(ByFormality, asc, s) {
        SelectionSortedOfOrdered(ByFormality, asc, s);
      }
      if WellFormed(s) {
        WellFormedPermutation(s, Contents());
      }
    }

    /** Sort by time of last use, oldest first when asc
        (insertionSortLastUsed); stable. */
    method SortByLastUsed(asc: bool)
      requires Valid()
      modifies outfits
      ensures Valid()
      ensures Contents() == InsertionSorted(ByLastUsed, asc, old(Contents()))
      ensures Ordered(ByLastUsed, asc, Contents())
      ensures multiset(Contents()) == multiset(old(Contents()))
      ensures Stable(ByLastUsed, old(Contents()), Contents())
      ensures old(Ordered(ByLastUsed, asc, Contents())) ==> Contents() == old(Contents())
      ensures old(WellFormed(Contents())) ==> WellFormed(Contents())
      ensures forall k {:trigger old(outfits[k])} :: count <= k < outfits.Length ==> outfits[k] == old(outfits[k])
    {
      ghost var s := Contents();
      InsertionSort(ByLastUsed, asc);
      InsertionSortedOrdered(ByLastUsed, asc, s);
      InsertionSortedPermutation(ByLastUsed, asc, s);
      InsertionSortedStable(ByLastUsed, asc, s);
      if Ordered(ByLastUsed, asc, s) {
        InsertionSortedOfOrdered(ByLastUsed, asc, s);
      }
      if WellFormed(s) {
        WellFormedPermutation(s, Contents());
      }
    }

    // -------------------------------------------------------------------
    // Add, edit, delete
    // -------------------------------------------------------------------

    /** The id a new record gets: one more than the highest live id, or 1
        when the store is empty. */
    method NextId() returns (newId: int)
      requires Valid()
      ensures newId == MaxId(Contents()) + 1
      ensures newId >= 1
      ensures forall k :: 0 <= k < count ==> outfits[k].id < newId
    {
      var maxId := 0;
      var i := 0;
      while i < count
        invariant 0 <= i <= count
        invariant maxId == MaxId(outfits[..i])
      {
        assert outfits[..i + 1][..i] == outfits[..i];
        if outfits[i].id > maxId {
          maxId := outfits[i].id;
        }
        i := i + 1;
      }
      assert outfits[..i] == Contents();
      newId := maxId + 1;
    }

    /** Add a record (tambahOutfit). A full store is left alone and None is
        returned. Otherwise the record goes to the first free slot with the
        next id, the coerced formality and last use now, and its id is
        returned. */
    method Add(name: string, category: string, color: string, season: string,
               description: string, formality: Option<int>, now: int) returns (newId: Option<int>)
      requires Valid()
      modifies this, outfits
      ensures Valid() && outfits == old(outfits)
      ensures old(count) >= MaxOutfits ==> newId == None && count == old(count) && unchanged(outfits)
      ensures old(count) < MaxOutfits ==>
        && newId == Some(MaxId(old(Contents())) + 1)
        && count == old(count) + 1
        && Contents() == old(Contents())
             + [Outfit(newId.value, name, category, color, season, description, CoerceFormality(formality), now)]
      ensures newId.Some? ==> forall k :: 0 <= k < old(count) ==> outfits[k].id != newId.value
      ensures old(WellFormed(Contents())) ==> WellFormed(Contents())
      ensures forall k :: count <= k < outfits.Length ==> outfits[k] == old(outfits[k])
    {
      if count >= MaxOutfits {
        return None;
      }
      var id := NextId();
      var formal := CoerceFormality(formality);
      outfits[count] := Outfit(id, name, category, color, season, description, formal, now);
      count := count + 1;
      newId := Some(id);
      assert Contents() == old(Contents()) + [outfits[count - 1]];
    }

    /** Edit the record with the given id (editOutfit). A blank text field
        keeps the old value; the formality changes only to a tier in 1..3.
        The id, the last use and every other slot stay as they were. */
    method Edit(id: int, name: string, category: string, color: string, season: string,
                description: string, formality: Option<int>) returns (idx: int)
      requires Valid()
      modifies outfits
      ensures Valid()
      ensures idx == -1 <==> forall k :: 0 <= k < count ==> old(outfits[k]).id != id
      ensures idx != -1 ==> 0 <= idx < count && old(outfits[idx]).id == id
      ensures forall k :: 0 <= k < idx ==> old(outfits[k]).id != id
      ensures idx != -1 ==>
        outfits[idx] == Edited(old(outfits[idx]), name, category, color, season, description, formality)
      ensures forall k :: 0 <= k < outfits.Length && k != idx ==> outfits[k] == old(outfits[k])
      ensures old(WellFormed(Contents())) ==> WellFormed(Contents())
    {
      idx := FindIndexById(id);
      if idx == -1 {
        return;
      }
      ghost var s := Contents();
      outfits[idx] := Edited(outfits[idx], name, category, color, season, description, formality);
      if WellFormed(s) {
        assert Contents() == s[idx := outfits[idx]];
        ReplaceWellFormed(s, idx, outfits[idx]);
      }
    }

    /** Delete the record with the given id (hapusOutfit): the records after
        it move one place left and the count drops by one. Returns the index
        it had, or -1 (and no change) when no live record has that id. */
    method Delete(id: int) returns (idx: int)
      requires Valid()
      modifies this, outfits
      ensures Valid() && outfits == old(outfits)
      ensures idx == -1 <==> forall k :: 0 <= k < old(count) ==> old(outfits[k]).id != id
      ensures idx != -1 ==> 0 <= idx < old(count) && old(outfits[idx]).id == id
      ensures forall k :: 0 <= k < idx ==> old(outfits[k]).id != id
      ensures idx == -1 ==> count == old(count) && unchanged(outfits)
      ensures idx != -1 ==>
        && count == old(count) - 1
        && Contents() == old(Contents())[..idx] + old(Contents())[idx + 1..]
      ensures old(UniqueIds(Contents())) ==> forall k :: 0 <= k < count ==> outfits[k].id != id
      ensures old(WellFormed(Contents())) ==> WellFormed(Contents())
      ensures forall k :: old(count) <= k < outfits.Length ==> outfits[k] == old(outfits[k])
    {
      idx := FindIndexById(id);
      if idx == -1 {
        return;
      }
      ghost var s := Contents();
      ShiftLeft(idx);
      count := count - 1;
      RemoveAt(s, idx);
      if UniqueIds(s) {
        RemovedIdGone(s, idx, Contents());
      }
    }

    /** The loop of hapusOutfit: every live record after idx moves one place
        left. The last live slot keeps its old record until the count drops. */
    method ShiftLeft(idx: int)
      requires Valid() && 0 <= idx < count
      modifies outfits
      ensures Valid()
      ensures outfits[..count - 1] == old(Contents()[..idx] + Contents()[idx + 1..])
      ensures forall k :: count - 1 <= k < outfits.Length ==> outfits[k] == old(outfits[k])
    {
      ghost var s := Contents();
      var i := idx;
      while i < count - 1
        invariant idx <= i <= count - 1
        invariant forall k :: 0 <= k < idx ==> outfits[k] == old(outfits[k])
        invariant forall k :: idx <= k < i ==> outfits[k] == old(outfits[k + 1])
        invariant forall k :: i <= k < outfits.Length ==> outfits[k] == old(outfits[k])
      {
        outfits[i] := outfits[i + 1];
        i := i + 1;
      }
      RemovedOf(s, outfits[..count - 1], idx);
    }

    // -------------------------------------------------------------------
    // Plan OOTD
    // -------------------------------------------------------------------

    /** The scan of planOOTD: among the live records of tier f, the one used
        longest ago, the first on a tie; -1 when the tier has none. */
    method OldestOfFormality(f: int) returns (idx: int)
      requires Valid()
      ensures idx == -1 <==> forall k :: 0 <= k < count ==> outfits[k].formality != f
      ensures idx != -1 ==> IsOldestOfFormality(Contents(), f, idx)
    {
      idx := -1;
      var oldest := 0;
      var found := false;
      var i := 0;
      while i < count
        invariant 0 <= i <= count
        invariant !found ==> idx == -1 && forall k :: 0 <= k < i ==> outfits[k].formality != f
        invariant found ==> 0 <= idx < i && outfits[idx].formality == f && oldest == outfits[idx].lastUsed
        invariant found ==> forall k :: 0 <= k < i && outfits[k].formality == f ==> oldest <= outfits[k].lastUsed
        invariant found ==> forall k :: 0 <= k < idx && outfits[k].formality == f ==> oldest < outfits[k].lastUsed
      {
        if outfits[i].formality == f {
          if !found {
            idx := i;
            oldest := outfits[i].lastUsed;
            found := true;
          } else if outfits[i].lastUsed < oldest {
            idx := i;
            oldest := outfits[i].lastUsed;
          }
        }
        i := i + 1;
      }
    }

    /** Plan the outfit of the day (planOOTD) for tier f at time now. With
        an empty store, a tier outside 1..3 or no record of the tier nothing
        changes and -1 is returned; otherwise the oldest-used record of the
        tier is picked and only its last use changes, to now. */
    method PlanOotd(f: int, now: int) returns (chosen: int)
      requires Valid()
      modifies outfits
      ensures Valid()
      ensures chosen == -1 <==> f < 1 || f > 3 || forall k :: 0 <= k < count ==> old(outfits[k]).formality != f
      ensures chosen == -1 ==> unchanged(outfits)
      ensures chosen != -1 ==>
        && IsOldestOfFormality(old(Contents()), f, chosen)
        && outfits[..] == old(outfits[..])[chosen := old(outfits[chosen]).(lastUsed := now)]
      ensures old(WellFormed(Contents())) ==> WellFormed(Contents())
    {
      if count == 0 {
        return -1;
      }
      if f < 1 || f > 3 {
        return -1;
      }
      chosen := OldestOfFormality(f);
      if chosen != -1 {
        outfits[chosen] := outfits[chosen].(lastUsed := now);
      }
    }
  }

  /** In a store sorted by category, a record whose category lower-cases
      below c has only such records before it. */
  lemma BelowKey(s: seq<Outfit>, c: string, mid: int)
    requires Ordered(ByCategory, true, s) && 0 <= mid < |s|
    requires LexLess(Lower(s[mid].category), c)
    ensures forall k :: 0 <= k <= mid ==> LexLess(Lower(s[k].category), c)
  {
    forall k | 0 <= k <= mid
      ensures LexLess(Lower(s[k].category), c)
    {
      OrderedByCategory(s, k, mid);
      if !EqualFold(s[k].category, s[mid].category) {
        LexLessTransitive(Lower(s[k].category), Lower(s[mid].category), c);
      }
    }
  }

  /** In a store sorted by category, a record whose category lower-cases
      above the searched one has only such records after it. */
  lemma AboveKey(s: seq<Outfit>, category: string, mid: int)
    requires Ordered(ByCategory, true, s) && 0 <= mid < |s|
    requires !EqualFold(s[mid].category, category)
    requires !LexLess(Lower(s[mid].category), Lower(category))
    ensures forall k :: mid <= k < |s| ==> LexLess(Lower(category), Lower(s[k].category))
  {
    var c := Lower(category);
    LexLessTotal(c, Lower(s[mid].category));
    forall k | mid <= k < |s|
      ensures LexLess(c, Lower(s[k].category))
    {
      OrderedByCategory(s, mid, k);
      if !EqualFold(s[mid].category, s[k].category) {
        LexLessTransitive(c, Lower(s[mid].category), Lower(s[k].category));
      }
    }
  }

  /** Walking back from a match to the start of its run finds the first
      match: nothing before low matches, and nothing between low and the
      run does either. */
  lemma FirstOfRun(s: seq<Outfit>, category: string, low: int, mid: int)
    requires Ordered(ByCategory, true, s) && 0 <= low <= mid < |s|
    requires forall k :: 0 <= k < low ==> LexLess(Lower(s[k].category), Lower(category))
    requires EqualFold(s[mid].category, category)
    requires mid == low || !EqualFold(s[mid - 1].category, category)
    ensures forall k :: 0 <= k < mid ==> !EqualFold(s[k].category, category)
  {
    LexLessIrreflexive(Lower(category));
    forall k | low <= k < mid - 1
      ensures !EqualFold(s[k].category, category)
    {
      NoMatchBefore(s, category, k, mid - 1, mid);
    }
  }

  /** When the search range is empty, every record lies strictly below or
      strictly above the searched category. */
  lemma NotFound(s: seq<Outfit>, category: string, low: int)
    requires 0 <= low <= |s|
    requires forall k :: 0 <= k < low ==> LexLess(Lower(s[k].category), Lower(category))
    requires forall k :: low <= k < |s| ==> LexLess(Lower(category), Lower(s[k].category))
    ensures forall k :: 0 <= k < |s| ==> !EqualFold(s[k].category, category)
  {
    LexLessIrreflexive(Lower(category));
  }

  /** With categories sorted ascending, once a record at j does not match
      category but a later one at m does, nothing before j matches either. */
  lemma NoMatchBefore(s: seq<Outfit>, category: string, k: int, j: int, m: int)
    requires Ordered(ByCategory, true, s)
    requires 0 <= k < j < m < |s|
    requires !EqualFold(s[j].category, category) && EqualFold(s[m].category, category)
    ensures !EqualFold(s[k].category, category)
  {
    var c := Lower(category);
    OrderedByCategory(s, j, m);
    OrderedByCategory(s, k, j);
    LexLessIrreflexive(c);
    if LexLess(Lower(s[k].category), Lower(s[j].category)) {
      LexLessTransitive(Lower(s[k].category), Lower(s[j].category), c);
    }
  }

  /** b is a with the records at i and j exchanged. */
  lemma SwapOf(a: seq<Outfit>, b: seq<Outfit>, i: int, j: int)
    requires 0 <= i < |a| && 0 <= j < |a| && |b| == |a|
    requires b[i] == a[j] && b[j] == a[i]
    requires forall k :: 0 <= k < |a| && k != i && k != j ==> b[k] == a[k]
    ensures b == Swap(a, i, j)
  {
  }

  /** b is s without the record at p. */
  lemma RemovedOf(s: seq<Outfit>, b: seq<Outfit>, p: int)
    requires 0 <= p < |s| && |b| == |s| - 1
    requires forall k :: 0 <= k < p ==> b[k] == s[k]
    requires forall k :: p <= k < |b| ==> b[k] == s[k + 1]
    ensures b == s[..p] + s[p + 1..]
  {
  }

  /** b is a with the record at i replaced by v. */
  lemma UpdateOf(a: seq<Outfit>, b: seq<Outfit>, i: int, v: Outfit)
    requires 0 <= i < |a| && |b| == |a| && b[i] == v
    requires forall k :: 0 <= k < |a| && k != i ==> b[k] == a[k]
    ensures b == a[i := v]
  {
  }

  /** Exchanging a record with itself changes nothing. */
  lemma SwapSame(a: seq<Outfit>, i: int)
    requires 0 <= i < |a|
    ensures Swap(a, i, i) == a
  {
  }
}
