# Outfit manager store, modelled in Dafny

This project models the in-memory core of `outfit_manager.go`, a command-line
wardrobe manager. Its state is a fixed array of `MAX_OUTFITS` (100) outfit
records and a live count `nOutfits`. The first `nOutfits` slots hold the
wardrobe. The core operations are:

- the searches: by id, by name, by colour, and a binary search by category;
- the four in-place sorts, each with an ascending/descending flag:
  - selection sort by name;
  - insertion sort by category;
  - selection sort by formality;
  - insertion sort by time of last use;
- add, edit and delete;
- the "outfit of the day" planner: it picks the longest-unused outfit of a
  formality tier and stamps it as used now.

The project has four modules:

- `Text` (`text.dfy`) covers Go's case-insensitive equality `strings.EqualFold`,
  `strings.ToLower`, and Go's byte-wise string order `<` / `strings.Compare`.
- `Outfits` (`outfit.dfy`) covers:
  - the record and the four sort keys with their strict "comes before" order;
  - what "ordered" and "stable" mean;
  - the store invariants: distinct ids and a formality in 1..3;
  - the per-record edit;
  - the highest-id rule for new ids.
- `SortSpec` (`sorting.dfy`) gives, for each sort algorithm, a function on
  sequences that follows the in-place loops step by step. It proves that the
  result is ordered, is a permutation of the input, and is stable (insertion
  sort only), and that input already in order comes back unchanged.
- `Store` (`store.dfy`) is the class `OutfitStore`: an `array<Outfit>` of
  length 100 and a count. Its methods are the loops of the Go program. Each
  method is proved against the functions above, so that afterwards the live
  prefix `Contents()` equals the specification of the operation.

The Go sources use a `time.Time` for the time of last use. The model uses an
integer instant for it, where a smaller value means an earlier time. The
current time is a parameter, `now`.

## Model

| member | source | states |
|---|---|---|
| Text.Lower | outfit_manager.go:133 | lower-casing keeps the length and lower-cases each ASCII letter, position by position |
| Text.EqualFold | outfit_manager.go:106 | two strings are equal ignoring case exactly when they have the same length and agree letter by letter after lower-casing |
| Text.LexLessDecided | outfit_manager.go:133 | `LexLess` (Go's `<` on strings) holds exactly when, after a common prefix, either a ends while b goes on, or a's next character is smaller than b's |
| Text.LexLessIrreflexive | outfit_manager.go:133 | no string is below itself in Go's string order |
| Text.LexLessTransitive | outfit_manager.go:133 | Go's string order is transitive |
| Text.LexLessTotal | outfit_manager.go:146 | two different strings are ordered one way or the other, so `strings.Compare` returns 0 only on equal strings |
| Outfits.KeyOf | outfit_manager.go:146-147 | name and category are compared as lower-cased text; formality and last use are compared as numbers |
| Outfits.PrecedesCompares | outfit_manager.go:160-166 | `Precedes` is, key by key, the comparison of the sorts: lower-cased name (:146-147) or category (:160-166) under Go's string order, formality (:179) and last use (:193) as numbers; descending swaps the operands |
| Outfits.PrecedesIrreflexive | outfit_manager.go:147 | a record never strictly precedes one with the same key, in either direction |
| Outfits.PrecedesTransitive | outfit_manager.go:147 | "strictly precedes" is transitive for every key and direction |
| Outfits.PrecedesAsymmetric | outfit_manager.go:147 | two records never strictly precede each other |
| Outfits.PrecedesTotal | outfit_manager.go:147 | two records either have equal keys or one strictly precedes the other |
| Outfits.PrecedesSplit | outfit_manager.go:167 | if x precedes z, every y is preceded by x or precedes z |
| Outfits.OrderedByCategory | outfit_manager.go:123-139 | in a list sorted ascending by category, an earlier record's category is equal ignoring case, or lower-cases to a strictly smaller string |
| Outfits.TieClassAppend | outfit_manager.go:157-173 | the records with a given key in a concatenation are those of the first part followed by those of the second |
| Outfits.RemoveAt | outfit_manager.go:351-354 | removing one record keeps the ids distinct and the records well formed; every remaining record comes from the same or the next position |
| Outfits.RemovedIdGone | outfit_manager.go:351-354 | with distinct ids, no remaining record carries the removed record's id |
| Outfits.UniqueIdsPermutation | outfit_manager.go:142-199 | reordering records cannot create a duplicate id |
| Outfits.WellFormedPermutation | outfit_manager.go:142-199 | reordering keeps ids distinct and every formality in 1..3 |
| Outfits.ReplaceWellFormed | outfit_manager.go:297-331 | replacing a record with one that has the same id and a formality in 1..3 keeps the records well formed |
| Outfits.Edited | outfit_manager.go:297-331 | each blank text field keeps its old value and each non-blank one replaces it; formality changes only to a valid 1..3 value; id and last use are kept; a valid formality stays valid |
| Outfits.MaxId | outfit_manager.go:240-245 | the result is at least 0, no live id exceeds it, and it is 0 or some live record's id |
| Outfits.IdReusedAfterDelete | outfit_manager.go:240-246 | adding a record, deleting it and adding again hands out the deleted id a second time |
| Outfits.CoerceFormality | outfit_manager.go:260-265 | a parsed tier in 1..3 is kept; a missing, unparsable or out-of-range value becomes 1; the result is always in 1..3 |
| SortSpec.Insert | outfit_manager.go:167-171 | inserting a record makes the sequence one longer |
| SortSpec.Shift | outfit_manager.go:167-171 | the shifting loop keeps the number of records and never touches the positions after the taken record's slot |
| SortSpec.InsertionSorted | outfit_manager.go:157-173 | the insertion sort keeps the number of records |
| SortSpec.InsertPermutation | outfit_manager.go:167-171 | inserting x adds exactly x to the multiset of records |
| SortSpec.InsertOrdered | outfit_manager.go:167-171 | inserting into an ordered sequence gives an ordered sequence |
| SortSpec.InsertionSortedPermutation | outfit_manager.go:157-173 | the insertion sort is a permutation of its input |
| SortSpec.InsertionSortedOrdered | outfit_manager.go:157-173 | after the insertion sort no record strictly precedes an earlier one |
| SortSpec.InsertTies | outfit_manager.go:167-171 | inserting x keeps every tie class in the order of appending x at the end |
| SortSpec.InsertionSortedStable | outfit_manager.go:157-173 | the insertion sort is stable: records with equal keys keep their relative order |
| SortSpec.InsertionSortedOfOrdered | outfit_manager.go:157-173 | input that is already ordered comes out unchanged |
| SortSpec.InsertAtEnd | outfit_manager.go:167 | a record that precedes nothing before it does not move |
| SortSpec.ShiftIsInsert | outfit_manager.go:159-171 | the shifting inner loop on the array inserts the taken record into the records before its slot and leaves the later ones alone |
| SortSpec.InsertionPassesSorted | outfit_manager.go:158 | after the passes for positions 1 .. i-1, the prefix of length i is the insertion sort of the input's prefix and the rest is untouched |
| SortSpec.InsertionPassesAll | outfit_manager.go:158 | the passes over the whole live prefix compute the insertion sort |
| SortSpec.ScanMin | outfit_manager.go:145-150 | the scan returns a position between the starting candidate and the end, and either keeps the candidate or moves to a position it has scanned |
| SortSpec.SelectionSorted | outfit_manager.go:142-155 | the selection sort keeps the number of records |
| SortSpec.ScanMinIsFirstMin | outfit_manager.go:145-150 | the inner scan ends on the first record that no later record strictly precedes |
| SortSpec.ScanMinFromIsFirstMin | outfit_manager.go:144-150 | the scan from position i picks the first minimum of the records from i on |
| SortSpec.SwapPermutation | outfit_manager.go:152 | exchanging two records keeps the multiset of records |
| SortSpec.Swap | outfit_manager.go:152 | exchanging two records keeps the number of records |
| SortSpec.SwapIsExchange | outfit_manager.go:152 | the exchange is Go's tuple assignment: the record at j is written to i, then the old record at i is written to j |
| SortSpec.SelectionPassesPermutation | outfit_manager.go:143-155 | every prefix of the passes of the selection sort is a permutation of the input |
| SortSpec.SelectionPassesInvariant | outfit_manager.go:143-155 | after i passes the first i records are ordered, and no later record strictly precedes any of them |
| SortSpec.SelectionSortedOrdered | outfit_manager.go:142-155 | after the selection sort no record strictly precedes an earlier one |
| SortSpec.SelectionSortedPermutation | outfit_manager.go:142-155 | the selection sort is a permutation of its input |
| SortSpec.ScanMinOfOrdered | outfit_manager.go:145-150 | on ordered records the scan keeps its first choice |
| SortSpec.SelectRoundOfOrdered | outfit_manager.go:151-153 | on ordered records a pass exchanges nothing |
| SortSpec.SelectionSortedOfOrdered | outfit_manager.go:142-155 | input that is already ordered comes out unchanged |
| SortSpec.InsertionSortedIdempotent | outfit_manager.go:157-173 | a second insertion sort in the same direction changes nothing |
| SortSpec.SelectionSortedIdempotent | outfit_manager.go:142-155 | a second selection sort in the same direction changes nothing |
| SortSpec.Reverse | outfit_manager.go:433-447 | the reversal has the same length and puts the record from position n-1-i at position i |
| SortSpec.ReversePermutation | outfit_manager.go:433-447 | reversing keeps the multiset of records |
| SortSpec.ReverseOrdered | outfit_manager.go:433-447 | a sequence ordered in one direction, reversed, is ordered in the other direction |
| SortSpec.KeysIdentifyPermutation | outfit_manager.go:433-447 | if no two records share a key, no two records of a permutation do |
| SortSpec.OrderedUnique | outfit_manager.go:433-447 | when no two records share a key, two ordered permutations of each other are equal |
| SortSpec.InsertionSortedReversed | outfit_manager.go:157-173 | when no two records tie on the key, sorting ascending and then descending (or the other way) gives exactly the reverse of the first result |
| SortSpec.SelectionSortedReversed | outfit_manager.go:142-155 | when no two names are equal ignoring case, sorting by name ascending and then descending (or the other way) gives exactly the reverse of the first result |
| Outfits.OldestOfFormalityUnique | outfit_manager.go:470-485 | the record the planner picks is determined: `IsOldestOfFormality` (the first record of the tier with the smallest last use) holds of at most one index |
| Store.OutfitStore.constructor | outfit_manager.go:29-32 | a new store has the capacity of 100, no live records, and the zero record in every slot |
| Store.OutfitStore.FindIndexById | outfit_manager.go:95-102 | the result is the first live index holding the id, or -1 exactly when no live record holds it |
| Store.OutfitStore.SearchByName | outfit_manager.go:104-111 | the result is the first live index whose name equals the query ignoring case, or -1 exactly when there is none |
| Store.OutfitStore.SearchByColor | outfit_manager.go:113-121 | the result lists, in increasing order, exactly the live indexes whose colour equals the query ignoring case |
| Store.OutfitStore.BinarySearchCategory | outfit_manager.go:123-140 | a returned index is always a live match; on a store sorted ascending by category, it is the first match, and -1 means there is none |
| Store.OutfitStore.RunStart | outfit_manager.go:129-131 | the walk back from a match stops at low or just after a non-matching record, and stays inside a run of matches |
| Store.OutfitStore.SortAndSearchCategory | outfit_manager.go:384-387 | after the ascending category sort, the search returns the first record of that category, or -1 exactly when there is none |
| Store.OutfitStore.ScanFrom | outfit_manager.go:144-150 | the inner loop of the selection sort computes the scan function on the live records |
| Store.OutfitStore.Exchange | outfit_manager.go:151-153 | the live records become the old ones with positions i and j exchanged; the free slots are untouched |
| Store.OutfitStore.SelectInto | outfit_manager.go:144-153 | one outer pass performs one round of the selection sort specification |
| Store.OutfitStore.SelectionSort | outfit_manager.go:142-155 | the live records become the selection sort of the old ones; the free slots are untouched |
| Store.OutfitStore.InsertAt | outfit_manager.go:159-171 | one outer pass performs the shifting of the insertion sort specification on the live records |
| Store.OutfitStore.InsertionSort | outfit_manager.go:157-173 | the live records become the insertion sort of the old ones; the free slots are untouched |
| Store.OutfitStore.SortByName | outfit_manager.go:142-155 | sorts by lower-cased name: ordered in the chosen direction, a permutation, unchanged when already ordered, and well formed if it was before |
| Store.OutfitStore.SortByCategory | outfit_manager.go:157-173 | sorts by lower-cased category: ordered, a permutation, stable, unchanged when already ordered, and well formed if it was before |
| Store.OutfitStore.SortByFormality | outfit_manager.go:175-187 | sorts by formality: ordered, a permutation, unchanged when already ordered, and well formed if it was before |
| Store.OutfitStore.SortByLastUsed | outfit_manager.go:189-200 | sorts by time of last use: ordered, a permutation, stable, unchanged when already ordered, and well formed if it was before |
| Store.OutfitStore.NextId | outfit_manager.go:240-246 | the new id is one more than the highest live id; it is at least 1 and above every live id |
| Store.OutfitStore.Add | outfit_manager.go:233-278 | a full store is left alone; otherwise exactly one record is appended, with id max+1, the coerced formality and last use now; the new id differs from every old one; well-formedness is kept |
| Store.OutfitStore.Edit | outfit_manager.go:282-331 | an unknown id changes nothing; otherwise only the first record with that id changes, as the per-field edit says; well-formedness is kept |
| Store.OutfitStore.Delete | outfit_manager.go:337-354 | an unknown id changes nothing; otherwise the record is cut out, the others keep their order, the count drops by one, no remaining record has that id if ids were distinct, and well-formedness is kept |
| Store.OutfitStore.ShiftLeft | outfit_manager.go:351-353 | the live records after the index move one place left |
| Store.OutfitStore.OldestOfFormality | outfit_manager.go:470-485 | the result is the first of the records of the tier with the oldest last use, or -1 exactly when the tier has no record |
| Store.OutfitStore.PlanOotd | outfit_manager.go:453-492 | with an empty store, an invalid tier, or no record of the tier, nothing changes; otherwise the oldest-used record of the tier is chosen and only its last use changes, to now |

## Left out

- Persistence to `outfits.json` (`saveToJSON`, `loadFromJSON`, and the seeded example record) is file I/O and not part of this model. The store starts empty.
- Menus, prompts and printing (`input`, `mainMenu`, `menuCariOutfit`, `menuLihatOutfit`, `tampilOutfits`, `tampilDetail`) are console I/O. The parsed formality arrives as an `Option<int>`: `None` means blank or not a number.
- `time.Now()` is a parameter `now`, and a `time.Time` is an integer instant. Monotonic clock readings and time zones are not modelled.
- Case folding covers ASCII letters only. Go's `strings.EqualFold` and `strings.ToLower` also fold non-ASCII letters. Go compares strings by their UTF-8 bytes, and that order agrees with the code-point order used here. `Text.EqualFold` is defined as equality of the lower-cased strings, so in the model it agrees with the lower-cased order by construction. Go does not promise this agreement: `strings.EqualFold("ſ", "s")` is true, yet `strings.ToLower` leaves "ſ" unchanged and it sorts after "s". The agreement holds for ASCII text.
- Go's `int` is 64 bits wide. The model uses unbounded integers, so `maxID + 1` cannot wrap around.
- Id reuse: one might expect ids never to be reused after a deletion. The code takes one more than the highest live id, so deleting the record with the highest id and then adding hands out that id again. The model follows the code, and `Outfits.IdReusedAfterDelete` shows the reuse.
- Store.OutfitStore.Delete: the slot just past the new count keeps a copy of the last record, as in Go. The model states no more about it than that the array beyond the old count is unchanged.
- Store.OutfitStore.BinarySearchCategory: the model claims first-match and completeness only for a store sorted ascending by category, as the Go caller guarantees by sorting first. On an unsorted store it claims only that a returned index is a match. The first-match and completeness claims also rest on `Text.EqualFold` agreeing with the lower-cased order, which the model has by construction and Go has only for ASCII text (see the case-folding line above).
- Distinct ids and formality in 1..3 are not part of the class invariant, because a loaded file could violate them. Each operation instead proves that it keeps them when they held before.
- The inner loops of the sorts, the binary search, the delete and the id scan are written as helper methods (`ScanFrom`, `InsertAt`, `SelectInto`, `RunStart`, `ShiftLeft`, `NextId`, `OldestOfFormality`). Each has its own contract, and they run the same steps in the same order as the Go loops.
