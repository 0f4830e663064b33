/** Candidate Point Selector: `get_search_points`, the quartile points of a segment. */
module Candidates {

  /** The source's candidate indices `j * len // 4` for `j = 1, 2, 3`, in that order. */
  function SearchIndices(length: nat): (indices: seq<nat>)
    ensures |indices| == 3
    ensures indices[0] <= indices[1] <= indices[2]
    ensures length > 0 ==> indices[2] < length
  {
    [1 * length / 4, 2 * length / 4, 3 * length / 4]
  }

  /** The elements of `s` at `indices`, keeping only the indices below `|s|` (the comprehension's filter). */
  function InBounds<T>(s: seq<T>, indices: seq<nat>): (picked: seq<T>)
    ensures |picked| <= |indices|
    ensures forall x :: x in picked ==> x in s
    ensures (forall j :: 0 <= j < |indices| ==> indices[j] < |s|) ==>
              |picked| == |indices| && forall j :: 0 <= j < |indices| ==> picked[j] == s[indices[j]]
  {
    if indices == [] then []
    else if indices[0] < |s| then [s[indices[0]]] + InBounds(s, indices[1..])
    else InBounds(s, indices[1..])
  }

  /** Up to three points of the segment, each one of its elements; for a non-empty segment no index
      is filtered out, so exactly the three quartile points come back, in index order. */
  function SearchPoints<T>(segment: seq<T>): (points: seq<T>)
    ensures segment == [] ==> points == []
    ensures |points| <= 3
    ensures forall p :: p in points ==> p in segment
    ensures segment != [] ==>
              && |points| == 3
              && points[0] == segment[|segment| / 4]
              && points[1] == segment[2 * |segment| / 4]
              && points[2] == segment[3 * |segment| / 4]
  {
    if segment == [] then [] else InBounds(segment, SearchIndices(|segment|))
  }

  /** A one-point segment is searched three times at the same point. */
  lemma OnePointSegment<T>(p: T)
    ensures SearchPoints([p]) == [p, p, p]
  {
  }
}
