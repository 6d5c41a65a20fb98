// The worked example of the searches over the sorted span [1, 3, 3, 3, 7, 9]:
// what each search returns, derived from the searches' contracts alone.

module Scenario {
  import opened Sequence
  import opened Search

  const Sample: seq<int> := [1, 3, 3, 3, 7, 9]

  /** The whole of Sample as an Adjacent view. */
  function Whole(): (v: View)
    ensures InBounds(Sample, v) && Sorted(Sample, v) && ReadDiff(v) == 6
  {
    View(0, |Sample|)
  }

  /** The bounds of keys 2, 3 and 5 in Sample, by the linear scan. */
  lemma SampleBounds()
    ensures LowerBound(Sample, 0, 6, 2) == 1 && UpperBound(Sample, 0, 6, 2) == 1
    ensures LowerBound(Sample, 0, 6, 3) == 1 && UpperBound(Sample, 0, 6, 3) == 4
    ensures LowerBound(Sample, 0, 6, 5) == 4 && UpperBound(Sample, 0, 6, 5) == 4
  {
  }

  /** Runs the searches on Sample: key 3 occurs at positions 1 to 3; keys 2
      and 5 are absent and are answered by the empty view at their
      insertion points 1 and 4. */
  method SampleRuns() returns (match3: View, match2: View, lower3: View, upper3: View,
                               equal3: View, equal5: View)
    ensures 1 <= match3.beg <= 3 && match3.end == match3.beg + 1
    ensures match2 == View(1, 1)
    ensures lower3 == View(1, 2)
    ensures upper3 == View(3, 4)
    ensures equal3 == View(1, 4)
    ensures equal5 == View(4, 4)
  {
    var v := Whole();
    SampleBounds();
    match3 := SortedMatch(Sample, v, 3);
    match2 := SortedMatch(Sample, v, 2);
    lower3 := SortedLower(Sample, v, 3);
    upper3 := SortedUpper(Sample, v, 3);
    equal3 := SortedEqual(Sample, v, 3);
    equal5 := SortedEqual(Sample, v, 5);
  }
}
