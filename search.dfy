// The four binary searches over an Adjacent view: match, lower bound, upper
// bound and equal range. Match, lower and upper take the caller's view by
// value, narrow a local copy with EditBeg/EditEnd in a `while` loop until it
// is no longer valid, and return a fresh view; equal range runs them in
// sequence, with no loop of its own. The caller's view and the data are
// never changed.

module Search {
  import opened Sequence

  /** The elements of `v` are in ascending order. */
  predicate Sorted(data: seq<int>, v: View)
    requires InBounds(data, v)
  {
    forall i, j :: v.beg <= i < j < v.end ==> data[i] <= data[j]
  }

  /** Some element of `v` equals `key`. */
  predicate Contains(data: seq<int>, v: View, key: int)
    requires InBounds(data, v)
  {
    exists i :: v.beg <= i < v.end && data[i] == key
  }

  predicate AllLess(data: seq<int>, lo: int, hi: int, key: int)
    requires 0 <= lo && hi <= |data|
  {
    forall i :: lo <= i < hi ==> data[i] < key
  }

  predicate AllGreater(data: seq<int>, lo: int, hi: int, key: int)
    requires 0 <= lo && hi <= |data|
  {
    forall i :: lo <= i < hi ==> key < data[i]
  }

  predicate AllNotLess(data: seq<int>, lo: int, hi: int, key: int)
    requires 0 <= lo && hi <= |data|
  {
    forall i :: lo <= i < hi ==> !(data[i] < key)
  }

  predicate AllNotGreater(data: seq<int>, lo: int, hi: int, key: int)
    requires 0 <= lo && hi <= |data|
  {
    forall i :: lo <= i < hi ==> !(key < data[i])
  }

  predicate AllEqual(data: seq<int>, lo: int, hi: int, key: int)
    requires 0 <= lo && hi <= |data|
  {
    forall i :: lo <= i < hi ==> data[i] == key
  }

  /** What sorted_match returns. An inverted view is answered by not_found
      straight away. Otherwise the result lies in `v` and is either the
      one-element view of an element neither less nor greater than `key`, or
      the empty view [p, p) at the position where the narrowing converged;
      on sorted data every element before p is less than `key` and every
      element from p on is greater. */
  predicate MatchResult(data: seq<int>, v: View, key: int, r: View)
    requires InBounds(data, v)
  {
    if v.end < v.beg then r == NotFound(v)
    else
      SubView(r, v) &&
      (IsValid(r) ==> r.end == r.beg + 1 && !(data[r.beg] < key) && !(key < data[r.beg])) &&
      (!IsValid(r) ==>
         r.beg == r.end &&
         (Sorted(data, v) ==> AllLess(data, v.beg, r.beg, key) && AllGreater(data, r.end, v.end, key)))
  }

  /** What sorted_lower returns. The narrowing converges on the lower bound
      p: every element of `v` before p is less than `key`, none from p on
      is. The result is [p, p+1) when p is inside `v` and holds `key`, and
      the empty view [p, p) otherwise. An inverted view gives not_found. */
  predicate LowerResult(data: seq<int>, v: View, key: int, r: View)
    requires InBounds(data, v)
  {
    if v.end < v.beg then r == NotFound(v)
    else
      v.beg <= r.beg <= v.end &&
      AllLess(data, v.beg, r.beg, key) && AllNotLess(data, r.beg, v.end, key) &&
      r.end == (if r.beg < v.end && data[r.beg] == key then r.beg + 1 else r.beg)
  }

  /** What sorted_upper returns. The narrowing converges on the upper bound
      p: no element of `v` before p is greater than `key`, every one from p
      on is. The result is [p-1, p) when p is past the start of `v` and the
      element before it holds `key`, and the empty view [p, p) otherwise. An
      inverted view gives not_found. */
  predicate UpperResult(data: seq<int>, v: View, key: int, r: View)
    requires InBounds(data, v)
  {
    if v.end < v.beg then r == NotFound(v)
    else
      v.beg <= r.end <= v.end &&
      AllNotGreater(data, v.beg, r.end, key) && AllGreater(data, r.end, v.end, key) &&
      r.beg == (if v.beg < r.end && data[r.end - 1] == key then r.end - 1 else r.end)
  }

  /** What sorted_equal returns: not_found for a view with no positive
      extent; otherwise a sub-view [f, l) holding only `key`, with every
      element before it less than `key` and every element after it greater. */
  predicate EqualResult(data: seq<int>, v: View, key: int, r: View)
    requires InBounds(data, v)
  {
    if IsEmpty(v) then r == NotFound(v)
    else
      SubView(r, v) &&
      AllLess(data, v.beg, r.beg, key) && AllEqual(data, r.beg, r.end, key) &&
      AllGreater(data, r.end, v.end, key)
  }

  /** Sortedness carries over to every sub-view. */
  lemma SortedSubView(data: seq<int>, v: View, w: View)
    requires InBounds(data, v) && Sorted(data, v) && SubView(w, v)
    ensures InBounds(data, w) && Sorted(data, w)
  {
  }

  // ---------------------------------------------------------------------
  // Reference definitions: the bounds found by a linear scan

  /** The first position of [lo, hi) whose element is not less than `key`,
      or hi when there is none (and for an inverted span). */
  function LowerBound(data: seq<int>, lo: int, hi: int, key: int): (p: int)
    requires 0 <= lo && hi <= |data|
    ensures lo <= hi ==> lo <= p <= hi && AllLess(data, lo, p, key) && (p < hi ==> !(data[p] < key))
    ensures hi < lo ==> p == hi
    decreases hi - lo
  {
    if hi <= lo then hi
    else if data[lo] < key then LowerBound(data, lo + 1, hi, key)
    else lo
  }

  /** The first position of [lo, hi) whose element is greater than `key`,
      or hi when there is none (and for an inverted span). */
  function UpperBound(data: seq<int>, lo: int, hi: int, key: int): (p: int)
    requires 0 <= lo && hi <= |data|
    ensures lo <= hi ==> lo <= p <= hi && AllNotGreater(data, lo, p, key) && (p < hi ==> key < data[p])
    ensures hi < lo ==> p == hi
    decreases hi - lo
  {
    if hi <= lo then hi
    else if key < data[lo] then lo
    else UpperBound(data, lo + 1, hi, key)
  }

  /** A position that splits [lo, hi) into elements less than `key` and
      elements not less than it is the lower bound. */
  lemma {:induction false} LowerBoundUnique(data: seq<int>, lo: int, hi: int, key: int, p: int)
    requires 0 <= lo <= p <= hi <= |data|
    requires AllLess(data, lo, p, key) && AllNotLess(data, p, hi, key)
    ensures p == LowerBound(data, lo, hi, key)
    decreases hi - lo
  {
    if lo < p {
      LowerBoundUnique(data, lo + 1, hi, key, p);
    }
  }

  /** A position that splits [lo, hi) into elements not greater than `key`
      and elements greater than it is the upper bound. */
  lemma {:induction false} UpperBoundUnique(data: seq<int>, lo: int, hi: int, key: int, p: int)
    requires 0 <= lo <= p <= hi <= |data|
    requires AllNotGreater(data, lo, p, key) && AllGreater(data, p, hi, key)
    ensures p == UpperBound(data, lo, hi, key)
    decreases hi - lo
  {
    if lo < p {
      UpperBoundUnique(data, lo + 1, hi, key, p);
    }
  }

  // ---------------------------------------------------------------------
  // The searches

  /** sorted_match: binary search for any one element equal to `key`. */
  method SortedMatch(data: seq<int>, v: View, key: int) returns (r: View)
    requires InBounds(data, v)
    ensures InBounds(data, r)
    ensures MatchResult(data, v, key, r)
    ensures Sorted(data, v) ==> (IsValid(r) <==> Contains(data, v, key))
    ensures Sorted(data, v) && !IsValid(r) ==>
              r == View(LowerBound(data, v.beg, v.end, key), UpperBound(data, v.beg, v.end, key))
  {
    var s := v;
    while IsValid(s)
      invariant InBounds(data, s)
      invariant v.end < v.beg ==> s == v
      invariant v.beg <= v.end ==> SubView(s, v)
      invariant Sorted(data, v) ==> AllLess(data, v.beg, s.beg, key) && AllGreater(data, s.end, v.end, key)
      decreases ReadDiff(s)
    {
      var mid := ReadMiddle(s);
      if data[mid] < key {
        s := EditBeg(s, mid + 1);
      } else if key < data[mid] {
        s := EditEnd(s, mid);
      } else {
        r := View(mid, mid + 1);
        MatchFoundIffContains(data, v, key, r);
        return;
      }
    }
    r := NotFound(s);
    MatchFoundIffContains(data, v, key, r);
    if Sorted(data, v) {
      MatchAbsentIsInsertionPoint(data, v, key, r);
    }
  }

  /** sorted_lower: binary search for the lower bound, reporting the element
      there when it equals `key`. */
  method SortedLower(data: seq<int>, v: View, key: int) returns (r: View)
    requires InBounds(data, v) && Sorted(data, v)
    ensures InBounds(data, r)
    ensures LowerResult(data, v, key, r)
    ensures r.beg == LowerBound(data, v.beg, v.end, key)
    ensures IsValid(r) <==> Contains(data, v, key)
  {
    var s := v;
    var end := s.end;
    while IsValid(s)
      invariant InBounds(data, s) && s.end <= end
      invariant v.end < v.beg ==> s == v
      invariant v.beg <= v.end ==> SubView(s, v)
      invariant AllLess(data, v.beg, s.beg, key) && AllNotLess(data, s.end, v.end, key)
      decreases ReadDiff(s)
    {
      var mid := ReadMiddle(s);
      if data[mid] < key {
        s := EditBeg(s, mid + 1);
      } else {
        s := EditEnd(s, mid);
      }
    }
    var found := s.end != end && data[s.end] == key;
    r := if found then View(s.end, s.end + 1) else NotFound(s);
    LowerResultIsLowerBound(data, v, key, r);
    LowerFoundIffContains(data, v, key, r);
  }

  /** sorted_upper: binary search for the upper bound, reporting the element
      just before it when that equals `key`. */
  method SortedUpper(data: seq<int>, v: View, key: int) returns (r: View)
    requires InBounds(data, v) && Sorted(data, v)
    ensures InBounds(data, r)
    ensures UpperResult(data, v, key, r)
    ensures r.end == UpperBound(data, v.beg, v.end, key)
    ensures IsValid(r) <==> Contains(data, v, key)
  {
    var s := v;
    var beg := s.beg;
    while IsValid(s)
      invariant InBounds(data, s) && beg <= s.beg
      invariant v.end < v.beg ==> s == v
      invariant v.beg <= v.end ==> SubView(s, v)
      invariant AllNotGreater(data, v.beg, s.beg, key) && AllGreater(data, s.end, v.end, key)
      decreases ReadDiff(s)
    {
      var mid := ReadMiddle(s);
      if key < data[mid] {
        s := EditEnd(s, mid);
      } else {
        s := EditBeg(s, mid + 1);
      }
    }
    var found := s.beg != beg && data[s.end - 1] == key;
    r := if found then View(s.end - 1, s.end) else NotFound(s);
    UpperResultIsUpperBound(data, v, key, r);
    UpperFoundIffContains(data, v, key, r);
  }

  /** sorted_equal: probe with sorted_match, then bound the run of `key` on
      the left with sorted_lower over [beg, probe.end) and on the right with
      sorted_upper over [probe.end, end). */
  method SortedEqual(data: seq<int>, v: View, key: int) returns (r: View)
    requires InBounds(data, v) && Sorted(data, v)
    ensures InBounds(data, r)
    ensures EqualResult(data, v, key, r)
    ensures r == View(LowerBound(data, v.beg, v.end, key), UpperBound(data, v.beg, v.end, key))
  {
    var probe := SortedMatch(data, v, key);
    if IsEmpty(v) {
      r := NotFound(v);
      EqualIsBounds(data, v, key, r);
      return;
    }
    var left := View(v.beg, probe.end);
    var right := View(probe.end, v.end);
    SortedSubView(data, v, left);
    SortedSubView(data, v, right);
    var lower := SortedLower(data, left, key);
    var upper := SortedUpper(data, right, key);
    r := View(lower.beg, upper.end);
    EqualFromProbe(data, v, key, probe, lower, upper);
    EqualIsBounds(data, v, key, r);
  }

  // ---------------------------------------------------------------------
  // Properties of the results

  /** The position sorted_lower converges on is the linear-scan lower bound. */
  lemma LowerResultIsLowerBound(data: seq<int>, v: View, key: int, r: View)
    requires InBounds(data, v) && LowerResult(data, v, key, r)
    ensures r.beg == LowerBound(data, v.beg, v.end, key)
  {
    if v.beg <= v.end {
      LowerBoundUnique(data, v.beg, v.end, key, r.beg);
    }
  }

  /** The position sorted_upper converges on is the linear-scan upper bound. */
  lemma UpperResultIsUpperBound(data: seq<int>, v: View, key: int, r: View)
    requires InBounds(data, v) && UpperResult(data, v, key, r)
    ensures r.end == UpperBound(data, v.beg, v.end, key)
  {
    if v.beg <= v.end {
      UpperBoundUnique(data, v.beg, v.end, key, r.end);
    }
  }

  /** On sorted data a match is reported exactly when `key` occurs in `v`. */
  lemma MatchFoundIffContains(data: seq<int>, v: View, key: int, r: View)
    requires InBounds(data, v) && MatchResult(data, v, key, r)
    ensures InBounds(data, r)
    ensures Sorted(data, v) ==> (IsValid(r) <==> Contains(data, v, key))
  {
    if IsValid(r) {
      assert data[r.beg] == key;
    } else if Sorted(data, v) && v.beg <= v.end {
      forall i | v.beg <= i < v.end ensures data[i] != key {
        if i < r.beg {
          assert data[i] < key;
        } else {
          assert key < data[i];
        }
      }
    }
  }

  /** When sorted_match finds nothing on sorted data, the empty view it
      returns sits at the insertion point: the lower bound, which is then
      also the upper bound. */
  lemma MatchAbsentIsInsertionPoint(data: seq<int>, v: View, key: int, r: View)
    requires InBounds(data, v) && Sorted(data, v)
    requires MatchResult(data, v, key, r) && !IsValid(r)
    ensures r == View(LowerBound(data, v.beg, v.end, key), UpperBound(data, v.beg, v.end, key))
  {
    if v.beg <= v.end {
      assert AllNotLess(data, r.beg, v.end, key) by {
        forall i | r.beg <= i < v.end ensures !(data[i] < key) {
          assert key < data[i];
        }
      }
      assert AllNotGreater(data, v.beg, r.end, key) by {
        forall i | v.beg <= i < r.end ensures !(key < data[i]) {
          assert data[i] < key;
        }
      }
      LowerBoundUnique(data, v.beg, v.end, key, r.beg);
      UpperBoundUnique(data, v.beg, v.end, key, r.end);
    }
  }

  /** sorted_lower reports an element exactly when `key` occurs in `v`, and
      the element it reports is the first occurrence. */
  lemma LowerFoundIffContains(data: seq<int>, v: View, key: int, r: View)
    requires InBounds(data, v) && Sorted(data, v) && LowerResult(data, v, key, r)
    ensures InBounds(data, r)
    ensures IsValid(r) <==> Contains(data, v, key)
    ensures IsValid(r) ==> r.end == r.beg + 1 && data[r.beg] == key &&
                           forall i :: v.beg <= i < r.beg ==> data[i] != key
  {
    if IsValid(r) {
      assert data[r.beg] == key;
    } else if v.beg <= v.end {
      forall i | v.beg <= i < v.end ensures data[i] != key {
        if i < r.beg {
          assert data[i] < key;
        } else {
          assert data[r.beg] <= data[i];
        }
      }
    }
  }

  /** sorted_upper reports an element exactly when `key` occurs in `v`, and
      the element it reports is the last occurrence. */
  lemma UpperFoundIffContains(data: seq<int>, v: View, key: int, r: View)
    requires InBounds(data, v) && Sorted(data, v) && UpperResult(data, v, key, r)
    ensures InBounds(data, r)
    ensures IsValid(r) <==> Contains(data, v, key)
    ensures IsValid(r) ==> r.end == r.beg + 1 && data[r.beg] == key &&
                           forall i :: r.end <= i < v.end ==> data[i] != key
  {
    if IsValid(r) {
      assert data[r.beg] == key;
    } else if v.beg <= v.end {
      forall i | v.beg <= i < v.end ensures data[i] != key {
        if r.end <= i {
          assert key < data[i];
        } else {
          assert data[i] <= data[r.end - 1];
        }
      }
    }
  }

  /** The combination step of sorted_equal: whatever the probe returned, the
      lower search left of probe.end and the upper search right of it
      together span exactly the run of `key`. */
  lemma EqualFromProbe(data: seq<int>, v: View, key: int, probe: View, lower: View, upper: View)
    requires InBounds(data, v) && Sorted(data, v) && !IsEmpty(v)
    requires MatchResult(data, v, key, probe)
    requires InBounds(data, View(v.beg, probe.end)) && InBounds(data, View(probe.end, v.end))
    requires LowerResult(data, View(v.beg, probe.end), key, lower)
    requires UpperResult(data, View(probe.end, v.end), key, upper)
    ensures EqualResult(data, v, key, View(lower.beg, upper.end))
  {
    if IsValid(probe) {
      var k := probe.beg;
      forall i | lower.beg <= i < upper.end ensures data[i] == key {
        if i < k {
          assert data[i] <= data[k];
        } else if k < i {
          assert data[k] <= data[i];
        }
      }
    }
  }

  /** The equal range is exactly the set of positions of `key` in `v`; it is
      empty precisely when `key` does not occur. */
  lemma EqualIsExactRun(data: seq<int>, v: View, key: int, r: View)
    requires InBounds(data, v) && !IsEmpty(v) && EqualResult(data, v, key, r)
    ensures forall i :: v.beg <= i < v.end ==> (data[i] == key <==> r.beg <= i < r.end)
    ensures IsValid(r) <==> Contains(data, v, key)
  {
    forall i | v.beg <= i < v.end ensures data[i] == key <==> r.beg <= i < r.end {
      if i < r.beg {
        assert data[i] < key;
      } else if r.end <= i {
        assert key < data[i];
      }
    }
    if IsValid(r) {
      assert data[r.beg] == key;
    }
  }

  /** The equal range runs from the lower bound to the upper bound of the
      whole view; for an empty view both are its end. */
  lemma EqualIsBounds(data: seq<int>, v: View, key: int, r: View)
    requires InBounds(data, v) && EqualResult(data, v, key, r)
    ensures r == View(LowerBound(data, v.beg, v.end, key), UpperBound(data, v.beg, v.end, key))
  {
    if !IsEmpty(v) {
      assert AllNotLess(data, r.beg, v.end, key) by {
        forall i | r.beg <= i < v.end ensures !(data[i] < key) {
          if i < r.end {
            assert data[i] == key;
          } else {
            assert key < data[i];
          }
        }
      }
      assert AllNotGreater(data, v.beg, r.end, key) by {
        forall i | v.beg <= i < r.end ensures !(key < data[i]) {
          if i < r.beg {
            assert data[i] < key;
          } else {
            assert data[i] == key;
          }
        }
      }
      LowerBoundUnique(data, v.beg, v.end, key, r.beg);
      UpperBoundUnique(data, v.beg, v.end, key, r.end);
    }
  }

  /** The result of sorted_equal is determined by the data, the view and the
      key alone, so running it twice gives the same boundaries. */
  lemma EqualResultUnique(data: seq<int>, v: View, key: int, r1: View, r2: View)
    requires InBounds(data, v) && EqualResult(data, v, key, r1) && EqualResult(data, v, key, r2)
    ensures r1 == r2
  {
    EqualIsBounds(data, v, key, r1);
    EqualIsBounds(data, v, key, r2);
  }

  /** For a key absent from sorted data the equal range is the empty view
      at which sorted_match converged. */
  lemma EqualAbsentIsMatchPoint(data: seq<int>, v: View, key: int, probe: View)
    requires InBounds(data, v) && Sorted(data, v)
    requires MatchResult(data, v, key, probe) && !IsValid(probe)
    ensures EqualResult(data, v, key, probe)
  {
    if !IsEmpty(v) {
      assert AllLess(data, v.beg, probe.beg, key) && AllGreater(data, probe.end, v.end, key);
    }
  }

  /** A key below every element of a valid view: both bounds sit at its
      start, and neither search reports an element. */
  lemma KeyBelowAll(data: seq<int>, v: View, key: int, lower: View, upper: View)
    requires InBounds(data, v) && IsValid(v) && AllGreater(data, v.beg, v.end, key)
    requires LowerResult(data, v, key, lower) && UpperResult(data, v, key, upper)
    ensures lower == View(v.beg, v.beg) && upper == View(v.beg, v.beg)
  {
    assert key < data[v.beg];
    LowerResultIsLowerBound(data, v, key, lower);
    UpperResultIsUpperBound(data, v, key, upper);
  }

  /** A key above every element of a valid view: both bounds sit at its end,
      so both searches return not_found of the caller's view. */
  lemma KeyAboveAll(data: seq<int>, v: View, key: int, lower: View, upper: View)
    requires InBounds(data, v) && IsValid(v) && AllLess(data, v.beg, v.end, key)
    requires LowerResult(data, v, key, lower) && UpperResult(data, v, key, upper)
    ensures lower == NotFound(v) && upper == NotFound(v)
  {
    LowerResultIsLowerBound(data, v, key, lower);
    UpperResultIsUpperBound(data, v, key, upper);
    LowerBoundUnique(data, v.beg, v.end, key, v.end);
    assert AllNotGreater(data, v.beg, v.end, key) by {
      forall i | v.beg <= i < v.end ensures !(key < data[i]) {
        assert data[i] < key;
      }
    }
    UpperBoundUnique(data, v.beg, v.end, key, v.end);
  }
}
