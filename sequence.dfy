// The "Adjacent" sequence view: a half-open span [beg, end) of positions in
// contiguous storage, with its read-only queries and the two boundary edits.
// Positions are integer indices into the backing storage; the storage itself
// is never written through a view.

module Sequence {

  /** An Adjacent view. `beg` is the first position, `end` one past the last.
      A view may be inverted (beg > end); it then denotes no element. */
  datatype View = View(beg: int, end: int)

  /** Both boundaries are positions of `data` (the one-past-the-end position
      included), as they are for any view built over that storage. */
  predicate InBounds(data: seq<int>, v: View)
  {
    0 <= v.beg <= |data| && 0 <= v.end <= |data|
  }

  /** `inner` lies inside `outer` and is not inverted. */
  predicate SubView(inner: View, outer: View)
  {
    outer.beg <= inner.beg <= inner.end <= outer.end
  }

  /** read_diff: the number of element steps from beg to end; negative when
      the view is inverted. */
  function ReadDiff(v: View): (d: int)
    ensures v.beg + d == v.end
    ensures d >= 0 <==> v.beg <= v.end
  {
    v.end - v.beg
  }

  /** is_valid: the view is a true non-empty forward range. */
  function IsValid(v: View): (b: bool)
    ensures b <==> ReadDiff(v) > 0
  {
    v.beg < v.end
  }

  /** is_empty: the view has no positive extent; exactly the views that are
      not valid. */
  function IsEmpty(v: View): (b: bool)
    ensures b <==> !IsValid(v)
    ensures b <==> v.end <= v.beg
  {
    ReadDiff(v) <= 0
  }

  /** read_middle: beg advanced by half of the diff, the halving being an
      arithmetic right shift by one (rounding toward minus infinity). On a
      valid view the middle is one of its positions. */
  function ReadMiddle(v: View): (mid: int)
    ensures 2 * (mid - v.beg) <= ReadDiff(v) < 2 * (mid - v.beg) + 2
    ensures IsValid(v) ==> v.beg <= mid < v.end
  {
    v.beg + ReadDiff(v) / 2
  }

  /** Edit::beg and edit_beg: overwrite the start boundary only. */
  function EditBeg(v: View, value: int): (r: View)
    ensures r.beg == value && r.end == v.end
  {
    v.(beg := value)
  }

  /** Edit::end and edit_end: overwrite the end boundary only. */
  function EditEnd(v: View, value: int): (r: View)
    ensures r.end == value && r.beg == v.beg
  {
    v.(end := value)
  }

  /** not_found: the empty view placed at the end boundary of `v`. */
  function NotFound(v: View): (r: View)
    ensures r.beg == r.end == v.end
    ensures IsEmpty(r) && !IsValid(r)
  {
    View(v.end, v.end)
  }

  /** One step of a search: moving beg past the middle, or end onto it,
      yields a sub-view of a valid view with a strictly smaller diff. This
      is what makes every search loop terminate. */
  lemma NarrowingShrinks(v: View)
    requires IsValid(v)
    ensures SubView(EditBeg(v, ReadMiddle(v) + 1), v)
    ensures SubView(EditEnd(v, ReadMiddle(v)), v)
    ensures 0 <= ReadDiff(EditBeg(v, ReadMiddle(v) + 1)) < ReadDiff(v)
    ensures 0 <= ReadDiff(EditEnd(v, ReadMiddle(v))) < ReadDiff(v)
  {
  }
}
