/** The cursor over a store (src/iter.rs). */
module SpaceIter {
  import opened Wrappers
  import opened Vectors
  import opened Space

  datatype VecSpaceIter = VecSpaceIter(space: VecSpace, pos: nat)

  /** `VecSpaceIter::new`: a cursor at the first record. */
  function NewIter(s: VecSpace): (it: VecSpaceIter)
    ensures it.space == s && it.pos == 0
  {
    VecSpaceIter(s, 0)
  }

  /** `Iterator::next`: the record under the cursor, after which the cursor moves one
      step; past the end nothing is returned and the cursor stays where it is. */
  function Next(it: VecSpaceIter): (r: (Option<Vector>, VecSpaceIter))
    ensures r.1.space == it.space
    ensures Valid(it.space) ==> (r.0.None? <==> it.pos >= Len(it.space))
    ensures r.0.Some? ==> it.pos < Len(it.space) && r.0 == Get(it.space, it.pos) && r.1.pos == it.pos + 1
    ensures r.0.None? ==> r.1 == it
  {
    match Get(it.space, it.pos)
    case None => (None, it)
    case Some(v) => (Some(v), it.(pos := it.pos + 1))
  }

  /** Everything the cursor still yields, in order. */
  function Drain(it: VecSpaceIter): seq<Vector>
    decreases |it.space.words| - it.pos
  {
    match Next(it)
    case (None, _) => []
    case (Some(v), rest) => [v] + Drain(rest)
  }

  /** The records of a store, position by position. */
  function Records(s: VecSpace): (rs: seq<Vector>)
    requires Valid(s)
    ensures |rs| == Len(s)
    ensures forall i :: 0 <= i < Len(s) ==> Get(s, i) == Some(rs[i])
  {
    seq(Len(s), i requires 0 <= i < Len(s) => Rec(s, i))
  }

  /** Draining a cursor from position `pos` yields the records `pos..len-1`. */
  lemma {:induction false} DrainFrom(s: VecSpace, pos: nat)
    requires Valid(s) && pos <= Len(s)
    ensures Drain(VecSpaceIter(s, pos)) == Records(s)[pos..]
    decreases Len(s) - pos
  {
    if pos < Len(s) {
      DrainFrom(s, pos + 1);
      assert Records(s)[pos..] == [Records(s)[pos]] + Records(s)[pos + 1..];
    }
  }

  /** A fresh cursor yields exactly `get(0), …, get(len - 1)`. */
  lemma DrainAll(s: VecSpace)
    requires Valid(s)
    ensures Drain(NewIter(s)) == Records(s)
  {
    DrainFrom(s, 0);
  }
}
