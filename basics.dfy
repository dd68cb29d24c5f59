/** Small shared vocabulary: optional values, results and the bounding box record
    that the extractor produces and the export writer serialises. */
module Basics {

  datatype Option<T> = None | Some(value: T)

  datatype Result<T, E> = Ok(value: T) | Err(error: E)

  /** A rectangle around one pixel cluster on one page. The model treats the
      coordinates as opaque payload: nothing here computes with them. */
  datatype BoundingBox = BoundingBox(page: int, left: real, top: real, width: real, height: real)

  /** The keys of an insertion-ordered association list (a Python dict's items()). */
  function KeysOf<K, V>(items: seq<(K, V)>): (ks: set<K>)
    ensures forall i :: 0 <= i < |items| ==> items[i].0 in ks
    ensures forall k :: k in ks ==> exists i :: 0 <= i < |items| && items[i].0 == k
  {
    set i | 0 <= i < |items| :: items[i].0
  }

  /** A Python dict never holds the same key twice. */
  predicate DistinctKeys<K(==), V>(items: seq<(K, V)>) {
    forall i, j :: 0 <= i < j < |items| ==> items[i].0 != items[j].0
  }
}
