/** The all-occurrences finder. */
module Utils {
  import opened PyStr

  /** All start indices of `query` in `text`, overlapping ones included: the
      search resumes one position after each hit, and stops when `find`
      reports -1. */
  method FindAllStartIndices(text: string, query: string) returns (r: seq<nat>)
    ensures forall i: int :: i in r <==> MatchAt(text, query, i)
    ensures forall a, b :: 0 <= a < b < |r| ==> r[a] < r[b]
  {
    r := [];
    var start: nat := 0;
    while true
      invariant start <= |text| + 1
      invariant forall i: int :: i in r <==> 0 <= i < start && MatchAt(text, query, i)
      invariant forall a, b :: 0 <= a < b < |r| ==> r[a] < r[b]
      invariant forall a :: 0 <= a < |r| ==> r[a] < start
      decreases |text| + 1 - start
    {
      var found := Find(text, query, start);
      if found == -1 {
        return;
      }
      r := r + [found];
      start := found + 1;
    }
  }
}
