# son8 sequence: Adjacent views and binary search, in Dafny

This project models `son8::sequence`, a header-only C++ library. The library has two parts:

- **Adjacent**: a non-owning view `[beg, end)` over contiguous storage. It offers read-only boundary queries (`read_diff`, `is_valid`, `is_empty`, `read_middle`). Its boundaries can be overwritten only through `Edit` (`edit_beg`, `edit_end`). `not_found` builds the empty view at a view's end.
- **Four binary searches** over a sorted view:
  - `sorted_match` returns any one element equal to the key.
  - `sorted_lower` returns the element at the lower bound if it equals the key.
  - `sorted_upper` returns the element just before the upper bound if it equals the key.
  - `sorted_equal` returns the whole run of elements equal to the key.

  `sorted_match`, `sorted_lower` and `sorted_upper` each take the view by value, narrow a local copy in a `while (is_valid(seq))` loop, and return a new view. `sorted_equal` runs them in sequence.

Modelling choices:

- Pointers are integer indices into a read-only `seq<int>`. The class `Adjacent` (include/son8/sequence.hxx:75-98) is the value type `Sequence.View(beg, end)`: its two-pointer constructor is the datatype constructor, and `beg()`/`begin()` and `end()` are the fields `beg` and `end`.
- A view may be inverted (`beg > end`). The searches require only that both boundaries are positions of the data. This is what `Sequence.InBounds` states.
- `Edit::beg`/`edit_beg` and `Edit::end`/`edit_end` assign one field of the working copy. They are modelled as `EditBeg` and `EditEnd`, which update one field of the datatype.
- `SortedMatch`, `SortedLower` and `SortedUpper` are `method`s that carry the source's `while (is_valid(seq))` loop and its invariants. `SortedEqual` is a straight-line `method` that calls the other three, as the source does.
- Each search method is proved against a result predicate (`MatchResult`, `LowerResult`, `UpperResult`, `EqualResult`). Each predicate states the ordering facts around the converged position. The methods are also proved against linear-scan reference definitions of the lower and upper bound (`LowerBound`, `UpperBound`).
- The caller's view is a datatype value passed by value, so no search can change it.
- `sorted_lower`, `sorted_upper` and `sorted_equal` require the view to be sorted. The source leaves unsorted input undefined.
- `sorted_match` has no sortedness precondition. Its found case holds on any data. The facts about the position where it converges are stated under sortedness.
- Elements are `int`, so the `==` tests in `sorted_lower` and `sorted_upper` agree with equivalence under `<`.

Two points where the code is easy to misread:

- An unsuccessful search returns the empty view `[p, p)` at the position `p` where the narrowing converged, not at the caller's end: `not_found` is applied to the narrowed working copy (include/son8/sequence.hxx:113, :126, :140).
- For a key that is absent, this `p` is the insertion point. `sorted_equal` relies on this. On `[1,3,3,3,7,9]`:
  - key 5 gives `[4, 4)`, not `[6, 6)`;
  - `sorted_match` with key 2 gives `[1, 1)`.
- `sorted_equal` tests the caller's view (`is_empty(seq)`, line 148), not the probe's result.
- `read_middle` shifts the signed difference right by one (`>> 1u`). This is modelled as an arithmetic shift, which rounds toward minus infinity. C++20 requires this; earlier C++ leaves it to the implementation. Dafny's `/ 2` on `int` rounds the same way.

## Model

| member | source | states |
|---|---|---|
| `Sequence.ReadDiff` | include/son8/sequence.hxx:34-37 | the diff is the number of steps from beg to end; it is non-negative exactly when the view is not inverted |
| `Sequence.IsValid` | include/son8/sequence.hxx:39-42 | a view is valid exactly when its diff is positive |
| `Sequence.IsEmpty` | include/son8/sequence.hxx:44-47 | `is_empty` (diff <= 0) holds exactly when `is_valid` does not, i.e. when end <= beg |
| `Sequence.ReadMiddle` | include/son8/sequence.hxx:49-52 | the middle is beg plus the diff halved by an arithmetic shift (floor); on a valid view it is a position with beg <= mid < end |
| `Sequence.EditBeg` | include/son8/sequence.hxx:64-65 | the new view has the given start and the old end: only the start boundary changes |
| `Sequence.EditEnd` | include/son8/sequence.hxx:66-67 | the new view has the given end and the old start: only the end boundary changes |
| `Sequence.NotFound` | include/son8/sequence.hxx:70-72 | the result is `[v.end, v.end)`: empty and not valid |
| `Sequence.NarrowingShrinks` | include/son8/sequence.hxx:107-110 | from a valid view, moving beg past the middle or end onto it gives a sub-view with a strictly smaller, non-negative diff; these are the one-step facts that each loop's `decreases ReadDiff(s)` rests on |
| `Search.SortedSubView` | include/son8/sequence.hxx:149-150 | the two sub-views that `sorted_equal` searches are inside the data and still sorted |
| `Search.LowerBound` | include/son8/sequence.hxx:120-124 | reference: the first position whose element is not less than the key (or the end); everything before it is less than the key |
| `Search.UpperBound` | include/son8/sequence.hxx:133-138 | reference: the first position whose element is greater than the key (or the end); nothing before it is greater than the key |
| `Search.LowerBoundUnique` | include/son8/sequence.hxx:121-124 | any position that splits the span into "less than key" and "not less than key" is the lower bound |
| `Search.UpperBoundUnique` | include/son8/sequence.hxx:134-138 | any position that splits the span into "not greater than key" and "greater than key" is the upper bound |
| `Search.SortedMatch` | include/son8/sequence.hxx:104-114 | an inverted view gives not_found; otherwise the result lies in the view and is either `[m, m+1)` with `data[m]` neither below nor above the key (on any data), or `[p, p)`; on sorted data it is found iff the key occurs, and `p` is the lower bound and also the upper bound |
| `Search.SortedLower` | include/son8/sequence.hxx:117-127 | converges on the lower bound `p`; returns `[p, p+1)` when `p` is before the original end and holds the key, else `[p, p)`; found iff the key occurs in the view |
| `Search.SortedUpper` | include/son8/sequence.hxx:130-141 | converges on the upper bound `p`; returns `[p-1, p)` when `p` is past the original start and `data[p-1]` is the key, else `[p, p)`; found iff the key occurs in the view |
| `Search.SortedEqual` | include/son8/sequence.hxx:144-152 | a view with diff <= 0 gives `[end, end)`; otherwise the result holds only the key, everything before it is less and everything after it greater; in every case it is `[lower bound, upper bound)` |
| `Search.LowerResultIsLowerBound` | include/son8/sequence.hxx:120-126 | the position `sorted_lower` converges on is the linear-scan lower bound |
| `Search.UpperResultIsUpperBound` | include/son8/sequence.hxx:133-140 | the position `sorted_upper` converges on is the linear-scan upper bound |
| `Search.MatchFoundIffContains` | include/son8/sequence.hxx:107-113 | on sorted data `sorted_match` returns a valid view exactly when the key occurs in the view |
| `Search.MatchAbsentIsInsertionPoint` | include/son8/sequence.hxx:107-113 | an unsuccessful `sorted_match` on sorted data returns `[p, p)` where `p` is both the lower and the upper bound |
| `Search.LowerFoundIffContains` | include/son8/sequence.hxx:125-126 | `sorted_lower` reports an element exactly when the key occurs, and the element it reports is the first occurrence |
| `Search.UpperFoundIffContains` | include/son8/sequence.hxx:139-140 | `sorted_upper` reports an element exactly when the key occurs, and the element it reports is the last occurrence |
| `Search.EqualFromProbe` | include/son8/sequence.hxx:147-151 | whether the probe found the key or not, `[lower.beg, upper.end)` from the searches on `[beg, probe.end)` and `[probe.end, end)` is the equal range |
| `Search.EqualIsExactRun` | include/son8/sequence.hxx:144-152 | for a non-empty view, a position is in the equal range iff its element is the key; the range is non-empty iff the key occurs |
| `Search.EqualIsBounds` | include/son8/sequence.hxx:144-152 | any equal-range result is `[lower bound, upper bound)` of the whole view |
| `Search.EqualResultUnique` | include/son8/sequence.hxx:144-152 | two equal-range results for the same data, view and key are identical, so repeating `sorted_equal` gives the same view |
| `Search.EqualAbsentIsMatchPoint` | include/son8/sequence.hxx:147-151 | for a key absent from sorted data, the empty view at which `sorted_match` converged is itself the equal range (the only one, by `EqualResultUnique`) |
| `Search.KeyBelowAll` | include/son8/sequence.hxx:117-140 | for a key below every element, `sorted_lower` and `sorted_upper` both return the empty view at the start |
| `Search.KeyAboveAll` | include/son8/sequence.hxx:117-140 | for a key above every element, both return not_found of the caller's view, at its end |
| `Scenario.SampleBounds` | include/son8/sequence.hxx:120-138 | in `[1,3,3,3,7,9]` the bounds of key 2 are 1 and 1, of key 3 are 1 and 4, of key 5 are 4 and 4 |
| `Scenario.SampleRuns` | include/son8/sequence.hxx:104-152 | on `[1,3,3,3,7,9]`: match 3 is one of positions 1..3; match 2 is `[1,1)`; lower 3 is `[1,2)`; upper 3 is `[3,4)`; equal 3 is `[1,4)`; equal 5 is `[4,4)` |

## Left out

- Pointers, pointer lifetime and aliasing of the backing storage: positions are indices into an immutable `seq<int>`.
- Generic element types with a user-supplied `<`: elements are `int`.
- Overflow of `std::ptrdiff_t` in `read_diff` or in pointer arithmetic: indices are unbounded integers, always inside the data.
- The `Category` enumeration, `category()` and the `static_assert` checks (lines 23-30, 35, 40, 45, 50, 58, 88, 105, 118, 131, 145): these are compile-time only. Only the Adjacent category exists in the model.
- The type aliases (lines 11-21), the `SON8_SEQUENCE_NOT_FOUND` macro (line 7, a textual copy of `not_found`) and the `make_from_std` comment (line 100), which has no code behind it.
- The `friend` access restriction on `Edit` (line 83): Dafny cannot hide one field update from other modules, and the restriction has no run-time behaviour.
- The deleted default constructor (line 90): a `View` always has both boundaries by construction.
- `begin()` and `beg()` (lines 94, 97) are the same accessor; both are the datatype field `beg`, and `end()` is the field `end`.
- Behaviour on unsorted input, which the source leaves undefined: `SortedLower`, `SortedUpper` and `SortedEqual` require sortedness. `SortedMatch` states its sortedness-dependent facts under an implication.
