/** The mould ids of the board in src/board.rs: the outer number (the dice group) and the place within it. */
module Board {
  import opened Wrappers
  import opened Ints

  /** `MouldId`; the derived ordering compares `outer` first, then `inner`. */
  datatype MouldId = MouldId(outer: u8, inner: u8)

  /** `MouldId::new`; `None` stands for its panics. */
  function NewMouldId(outer: u8, inner: u8): (r: Option<MouldId>)
    ensures r.None? <==> inner > outer || outer > 6
    ensures r.Some? ==> r.value.outer == outer && r.value.inner == inner && inner <= outer <= 6
  {
    if inner > outer then None
    else if outer > 6 then None
    else Some(MouldId(outer, inner))
  }

  /** The derived `Ord` of `MouldId`: lexicographic on (outer, inner). */
  predicate Less(a: MouldId, b: MouldId) {
    a.outer < b.outer || (a.outer == b.outer && a.inner < b.inner)
  }

  /** The derived ordering is a strict total order. */
  lemma LessIsStrictTotalOrder(a: MouldId, b: MouldId, c: MouldId)
    ensures !Less(a, a)
    ensures Less(a, b) && Less(b, c) ==> Less(a, c)
    ensures a != b ==> Less(a, b) || Less(b, a)
    ensures Less(a, b) ==> !Less(b, a)
  {
  }

  /** The (outer, inner) pairs `spawn_board` passes to `MouldId::new`, in source order. */
  const BoardMoulds: seq<(u8, u8)> := [
    (6, 1),
    (2, 1), (2, 2),
    (3, 1), (3, 2), (3, 3),
    (4, 1), (4, 2), (4, 3), (4, 4),
    (5, 1), (5, 2), (5, 3), (5, 4), (5, 5)]

  /** Every mould the board spawns passes both guards of `MouldId::new`. */
  lemma BoardMouldsAreValid()
    ensures forall k :: 0 <= k < |BoardMoulds| ==> NewMouldId(BoardMoulds[k].0, BoardMoulds[k].1).Some?
  {
  }
}
