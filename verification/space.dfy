/** The vector store (src/space.rs): one flat buffer of values cut into `dimension`-sized
    segments, the terms aligned with those segments, and an optional term index. */
module Space {
  import opened Wrappers
  import Text
  import opened Vectors

  /** Term positions are stored as `u32`. */
  const U32_LIMIT: nat := 0x1_0000_0000

  datatype VecSpace = VecSpace(
    vecData: seq<real>,
    words: seq<string>,
    dimension: nat,
    termMap: Option<map<string, nat>>)

  /** `VecSpace::len`. */
  function Len(s: VecSpace): nat {
    |s.words|
  }

  /** The last position of `t` among `words`. */
  function LastIndex(words: seq<string>, t: string): (i: nat)
    requires t in words
    ensures i < |words| && words[i] == t
    ensures forall j :: i < j < |words| ==> words[j] != t
  {
    if words[|words| - 1] == t then |words| - 1 else LastIndex(words[..|words| - 1], t)
  }

  /** `VecSpace::index_terms`: every term mapped to its position, in order, so a
      later duplicate overwrites an earlier one; positions are cut to `u32`. */
  function IndexTerms(words: seq<string>): (m: map<string, nat>)
    ensures forall t :: t in m <==> t in words
    ensures forall t :: t in m ==> m[t] == LastIndex(words, t) % U32_LIMIT
  {
    if |words| == 0 then map[]
    else
      var n := |words| - 1;
      var m := IndexTerms(words[..n]);
      assert words == words[..n] + [words[n]];
      m[words[n] := n % U32_LIMIT]
  }

  /** The store's invariant: the buffer holds exactly one segment per term, and an
      enabled index is the one the terms determine. */
  ghost predicate Valid(s: VecSpace) {
    && |s.vecData| == |s.words| * s.dimension
    && (s.termMap.Some? ==> s.termMap.value == IndexTerms(s.words))
  }

  /** `VecSpace::new`. */
  function New(dimension: nat): (s: VecSpace)
    ensures Valid(s)
    ensures Len(s) == 0 && s.dimension == dimension && s.termMap.None?
  {
    VecSpace([], [], dimension, None)
  }

  /** `VecSpace::with_termmap`: switches the index on and fills it from the stored terms. */
  function WithTermmap(s: VecSpace): (r: VecSpace)
    ensures r.vecData == s.vecData && r.words == s.words && r.dimension == s.dimension
    ensures r.termMap.Some?
    ensures |s.vecData| == |s.words| * s.dimension ==> Valid(r)
  {
    var enabled := s.(termMap := Some(map[]));
    if Len(enabled) == 0 then enabled else enabled.(termMap := Some(IndexTerms(s.words)))
  }

  /** The message `insert` returns for a record of the wrong dimension. */
  function DimensionError(given: nat, expected: nat): string {
    "Tried to insert a " + Text.NatToString(given) + " dimensional vec into a space with "
    + Text.NatToString(expected) + " dimensions"
  }

  /** `VecSpace::insert`: a record of the wrong dimension is refused and nothing changes;
      otherwise the record's data and term are appended and an enabled index is updated. */
  function Insert(s: VecSpace, v: Vector): (r: Result<VecSpace>)
    ensures r.Err? <==> Dim(v) != s.dimension
    ensures r.Err? ==> r.error == DimensionError(Dim(v), s.dimension)
    ensures r.Ok? ==> r.value.vecData == s.vecData + v.data
    ensures r.Ok? ==> r.value.words == s.words + [v.term]
    ensures r.Ok? ==> r.value.dimension == s.dimension
    ensures r.Ok? ==> r.value.termMap.Some? == s.termMap.Some?
    ensures r.Ok? && Valid(s) ==> Valid(r.value)
  {
    if Dim(v) != s.dimension then Err(DimensionError(Dim(v), s.dimension))
    else
      var termMap := match s.termMap
        case None => None
        case Some(m) => Some(m[v.term := |s.words| % U32_LIMIT]);
      var r := VecSpace(s.vecData + v.data, s.words + [v.term], s.dimension, termMap);
      assert (s.words + [v.term])[..|s.words|] == s.words;
      assert (|s.words| + 1) * s.dimension == |s.words| * s.dimension + s.dimension;
      Ok(r)
  }

  /** `VecSpace::get`: the record at `pos`, read from the segment starting at `pos * dimension`. */
  function Get(s: VecSpace, pos: nat): (r: Option<Vector>)
    ensures r.Some? ==> pos < Len(s) && r.value.term == s.words[pos] && Dim(r.value) == s.dimension
    ensures Valid(s) ==> (r.None? <==> pos >= Len(s))
  {
    var idx := pos * s.dimension;
    if pos >= |s.words| then None
    else if idx + s.dimension > |s.vecData| then
      SegmentInBounds(pos, |s.words|, s.dimension);
      None
    else
      Some(Vector(s.vecData[idx..idx + s.dimension], s.words[pos]))
  }

  /** The segment of a stored position lies inside the buffer. */
  lemma SegmentInBounds(pos: nat, len: nat, d: nat)
    requires pos < len
    ensures pos * d + d <= len * d
  {
    assert (len - pos - 1) * d >= 0;
    assert len * d == pos * d + d + (len - pos - 1) * d;
  }

  /** The record at a stored position is the segment `pos * dim .. pos * dim + dim`. */
  lemma RecordSegment(s: VecSpace, pos: nat)
    requires Valid(s) && pos < Len(s)
    ensures pos * s.dimension + s.dimension <= |s.vecData|
    ensures Get(s, pos).value.data == s.vecData[pos * s.dimension..pos * s.dimension + s.dimension]
  {
    SegmentInBounds(pos, Len(s), s.dimension);
  }

  /** `VecSpace::find_term_idx`: the indexed position of `term`, if the index is on. */
  function FindTermIdx(s: VecSpace, term: string): (r: Option<nat>)
    ensures s.termMap.None? ==> r.None?
    ensures Valid(s) && s.termMap.Some? ==>
              (r.Some? <==> term in s.words) &&
              (r.Some? ==> r.value == LastIndex(s.words, term) % U32_LIMIT)
  {
    match s.termMap
    case None => None
    case Some(m) => if term in m then Some(m[term]) else None
  }

  /** `VecSpace::find_term`. */
  function FindTerm(s: VecSpace, term: string): (r: Option<Vector>)
    ensures s.termMap.None? ==> r.None?
    ensures Valid(s) && s.termMap.Some? ==> (r.Some? ==> term in s.words)
  {
    match FindTermIdx(s, term)
    case None => None
    case Some(i) => Get(s, i)
  }

  /** With the index on, `find_term` returns the record at the last position holding the
      term, and nothing for a term never inserted. */
  lemma FindTermFindsLast(s: VecSpace, term: string)
    requires Valid(s) && s.termMap.Some? && Len(s) <= U32_LIMIT
    ensures FindTerm(s, term).Some? <==> term in s.words
    ensures term in s.words ==> FindTerm(s, term) == Get(s, LastIndex(s.words, term))
  {
    if term in s.words {
      var last := LastIndex(s.words, term);
      SmallPositionUncut(last);
      assert FindTermIdx(s, term) == Some(last);
      assert Get(s, last).Some?;
    } else {
      assert FindTermIdx(s, term).None?;
    }
  }

  /** Proof helper: a position below `u32::MAX + 1` survives the cut to `u32`. Stated
      apart so that the modulus is reasoned about without the store in context. */
  lemma SmallPositionUncut(n: nat)
    requires n < U32_LIMIT
    ensures n % U32_LIMIT == n
  {
  }

  /** `VecSpace::clear`: drops every record, keeps the dimension, empties an enabled index. */
  function Clear(s: VecSpace): (r: VecSpace)
    ensures Valid(r)
    ensures Len(r) == 0 && r.dimension == s.dimension
    ensures r.termMap.Some? == s.termMap.Some?
    ensures r.termMap.Some? ==> r.termMap.value == map[]
  {
    var termMap := match s.termMap
      case None => None
      case Some(_) => Some(map[]);
    VecSpace([], [], s.dimension, termMap)
  }

  /** The record at a stored position. */
  function Rec(s: VecSpace, pos: nat): (v: Vector)
    requires Valid(s) && pos < Len(s)
    ensures Get(s, pos) == Some(v)
  {
    Get(s, pos).value
  }

  /** A successful insert leaves every earlier record in place and makes the new one
      the last. */
  lemma InsertThenGet(s: VecSpace, v: Vector, pos: nat)
    requires Valid(s) && Insert(s, v).Ok?
    ensures Get(Insert(s, v).value, Len(s)) == Some(v)
    ensures pos != Len(s) ==> Get(Insert(s, v).value, pos) == Get(s, pos)
  {
    var r := Insert(s, v).value;
    var d := s.dimension;
    assert r.vecData[Len(s) * d..Len(s) * d + d] == v.data;
    if pos < Len(s) {
      SegmentInBounds(pos, Len(s), d);
      assert r.vecData[pos * d..pos * d + d] == s.vecData[pos * d..pos * d + d];
    }
  }

  /** The terms of a sequence of records. */
  function Terms(recs: seq<Vector>): (ts: seq<string>)
    ensures |ts| == |recs|
    ensures forall i :: 0 <= i < |recs| ==> ts[i] == recs[i].term
  {
    if |recs| == 0 then [] else [recs[0].term] + Terms(recs[1..])
  }

  /** The data of a sequence of records, one after another. */
  function Flatten(recs: seq<Vector>): seq<real> {
    if |recs| == 0 then [] else recs[0].data + Flatten(recs[1..])
  }

  ghost predicate AllOfDimension(recs: seq<Vector>, d: nat) {
    forall i :: 0 <= i < |recs| ==> Dim(recs[i]) == d
  }

  lemma AllOfDimensionTail(recs: seq<Vector>, d: nat)
    requires |recs| > 0 && AllOfDimension(recs, d)
    ensures AllOfDimension(recs[1..], d)
  {
    forall i | 0 <= i < |recs| - 1 ensures Dim(recs[1..][i]) == d {
      assert recs[1..][i] == recs[i + 1];
    }
  }

  /** `Extend::extend`: each record inserted in order; a record of the wrong dimension
      makes `extend` panic, so every record must match. */
  function Extend(s: VecSpace, recs: seq<Vector>): (r: VecSpace)
    requires AllOfDimension(recs, s.dimension)
    ensures r.dimension == s.dimension && r.termMap.Some? == s.termMap.Some?
    ensures r.words == s.words + Terms(recs)
    ensures r.vecData == s.vecData + Flatten(recs)
    ensures Valid(s) ==> Valid(r)
    decreases |recs|
  {
    if |recs| == 0 then
      assert s.words + Terms(recs) == s.words;
      assert s.vecData + Flatten(recs) == s.vecData;
      s
    else
      var next := Insert(s, recs[0]).value;
      AllOfDimensionTail(recs, s.dimension);
      var r := Extend(next, recs[1..]);
      Text.Regroup3(s.words, [recs[0].term], Terms(recs[1..]));
      Text.Regroup3(s.vecData, recs[0].data, Flatten(recs[1..]));
      r
  }

  /** Proof helper: extending by a record and then more is inserting the record and
      then extending by the rest. */
  lemma ExtendCons(s: VecSpace, v: Vector, next: VecSpace, recs: seq<Vector>)
    requires Insert(s, v) == Ok(next) && AllOfDimension(recs, next.dimension)
    ensures AllOfDimension([v] + recs, s.dimension)
    ensures Extend(s, [v] + recs) == Extend(next, recs)
  {
    assert ([v] + recs)[1..] == recs;
  }

  /** Proof helper: extending by records is inserting the first and extending by the rest. */
  lemma ExtendStep(s: VecSpace, recs: seq<Vector>)
    requires |recs| > 0 && AllOfDimension(recs, s.dimension)
    ensures Insert(s, recs[0]).Ok? && AllOfDimension(recs[1..], s.dimension)
    ensures Extend(s, recs) == Extend(Insert(s, recs[0]).value, recs[1..])
  {
    AllOfDimensionTail(recs, s.dimension);
  }

  /** Proof helper: extending by one record is inserting it. */
  lemma ExtendOne(s: VecSpace, v: Vector)
    requires Dim(v) == s.dimension
    ensures AllOfDimension([v], s.dimension) && Extend(s, [v]) == Insert(s, v).value
  {
    assert [v][1..] == [];
  }

  /** After `extend`, the records already stored are unchanged and the i-th new record
      sits at position `len + i`. */
  lemma {:induction false} ExtendThenGet(s: VecSpace, recs: seq<Vector>, pos: nat)
    requires Valid(s) && AllOfDimension(recs, s.dimension)
    ensures pos < Len(s) ==> Get(Extend(s, recs), pos) == Get(s, pos)
    ensures Len(s) <= pos < Len(s) + |recs| ==> Get(Extend(s, recs), pos) == Some(recs[pos - Len(s)])
    decreases |recs|
  {
    if |recs| > 0 {
      var next := Insert(s, recs[0]).value;
      InsertThenGet(s, recs[0], pos);
      ExtendThenGet(next, recs[1..], pos);
      if pos == Len(s) {
        ExtendThenGet(next, recs[1..], Len(s));
        InsertThenGet(s, recs[0], Len(s));
      }
    }
  }

  /** Turning the index on after the records are in gives the same store as turning it
      on first and inserting afterwards. */
  lemma IndexLateEqualsIndexEarly(s: VecSpace, recs: seq<Vector>)
    requires Valid(s) && AllOfDimension(recs, s.dimension)
    ensures WithTermmap(Extend(s, recs)) == Extend(WithTermmap(s), recs)
  {
    var late := WithTermmap(Extend(s, recs));
    var early := Extend(WithTermmap(s), recs);
    assert Valid(early);
    assert late.termMap == Some(IndexTerms(late.words));
  }

  /** Switching the index on twice is the same as once. */
  lemma WithTermmapIdempotent(s: VecSpace)
    requires Valid(s)
    ensures WithTermmap(WithTermmap(s)) == WithTermmap(s)
  {
    assert Valid(WithTermmap(s));
  }

  // ---- top_k ----

  /** Candidate (score, position) pairs, best score first. */
  ghost predicate Descending(best: seq<(real, nat)>) {
    forall i, j :: 0 <= i < j < |best| ==> best[i].0 >= best[j].0
  }

  function Min(a: nat, b: nat): nat {
    if a <= b then a else b
  }

  /** Where a candidate scoring `x` goes: after every entry scoring at least `x`. */
  function InsertPos(best: seq<(real, nat)>, x: real): (p: nat)
    requires Descending(best)
    ensures p <= |best|
    ensures forall t :: 0 <= t < p ==> best[t].0 >= x
    ensures forall t :: p <= t < |best| ==> best[t].0 < x
  {
    if |best| == 0 || best[0].0 < x then 0 else 1 + InsertPos(best[1..], x)
  }

  ghost predicate DistinctPositions(best: seq<(real, nat)>) {
    forall t, u :: 0 <= t < u < |best| ==> best[t].1 != best[u].1
  }

  /** `best` with `c` placed at `p`. */
  function Inserted(best: seq<(real, nat)>, p: nat, c: (real, nat)): seq<(real, nat)>
    requires p <= |best|
  {
    best[..p] + [c] + best[p..]
  }

  /** Offers a candidate to a container that keeps at most `k` best entries: the candidate
      goes after every entry scoring at least as much, and the list is cut to `k`. */
  function Offer(best: seq<(real, nat)>, c: (real, nat), k: nat): (r: seq<(real, nat)>)
    requires Descending(best) && |best| <= k
    ensures |r| == Min(|best| + 1, k)
  {
    var p := InsertPos(best, c.0);
    Inserted(best, p, c)[..Min(|best| + 1, k)]
  }

  /** What the bounded container promises after one offer: it stays sorted, holds only
      entries it was given, never drops an entry that beats one it keeps, drops nothing
      while it has room, and, once full, never lets its lowest score go down. */
  ghost predicate OfferKept(best: seq<(real, nat)>, c: (real, nat), k: nat, r: seq<(real, nat)>) {
    && Descending(r)
    && (forall x :: x in r ==> x in best || x == c)
    && (forall x :: (x in best || x == c) && x !in r ==> forall t :: 0 <= t < |r| ==> x.0 <= r[t].0)
    && (|best| < k ==> forall x :: x in best || x == c ==> x in r)
    && (|best| == k > 0 ==> forall t :: 0 <= t < |r| ==> best[|best| - 1].0 <= r[t].0)
    && (DistinctPositions(best) && (forall t :: 0 <= t < |best| ==> best[t].1 != c.1) ==>
          DistinctPositions(r))
  }

  lemma OfferSpec(best: seq<(real, nat)>, c: (real, nat), k: nat)
    requires Descending(best) && |best| <= k
    ensures OfferKept(best, c, k, Offer(best, c, k))
  {
    OfferOrder(best, c, k);
    OfferKeeps(best, c, k);
    if DistinctPositions(best) && (forall t :: 0 <= t < |best| ==> best[t].1 != c.1) {
      OfferDistinct(best, c, k);
    }
  }

  lemma OfferOrder(best: seq<(real, nat)>, c: (real, nat), k: nat)
    requires Descending(best) && |best| <= k
    ensures Descending(Offer(best, c, k))
    ensures |best| == k > 0 ==> forall t :: 0 <= t < |Offer(best, c, k)| ==> best[|best| - 1].0 <= Offer(best, c, k)[t].0
  {
    var p := InsertPos(best, c.0);
    var all := Inserted(best, p, c);
    var m := Min(|best| + 1, k);
    InsertedDescending(best, p, c);
    PrefixFacts(all, m);
    FullOfferKeepsFloor(best, p, c);
  }

  lemma OfferKeeps(best: seq<(real, nat)>, c: (real, nat), k: nat)
    requires Descending(best) && |best| <= k
    ensures var r := Offer(best, c, k);
      && (forall x :: x in r ==> x in best || x == c)
      && (forall x :: (x in best || x == c) && x !in r ==> forall t :: 0 <= t < |r| ==> x.0 <= r[t].0)
      && (|best| < k ==> forall x :: x in best || x == c ==> x in r)
  {
    var p := InsertPos(best, c.0);
    var all := Inserted(best, p, c);
    var m := Min(|best| + 1, k);
    InsertedDescending(best, p, c);
    PrefixFacts(all, m);
    OfferMembers(best, p, c, m);
  }

  lemma OfferDistinct(best: seq<(real, nat)>, c: (real, nat), k: nat)
    requires Descending(best) && |best| <= k
    requires DistinctPositions(best) && (forall t :: 0 <= t < |best| ==> best[t].1 != c.1)
    ensures DistinctPositions(Offer(best, c, k))
  {
    var p := InsertPos(best, c.0);
    var all := Inserted(best, p, c);
    InsertedDescending(best, p, c);
    InsertedDistinct(best, p, c);
    PrefixFacts(all, Min(|best| + 1, k));
  }

  lemma OfferMembers(best: seq<(real, nat)>, p: nat, c: (real, nat), m: nat)
    requires p <= |best| && m <= |best| + 1
    ensures forall x :: x in Inserted(best, p, c)[..m] ==> x in best || x == c
    ensures forall x :: (x in best || x == c) && x !in Inserted(best, p, c)[..m] ==>
              x in Inserted(best, p, c) && x !in Inserted(best, p, c)[..m]
    ensures m == |best| + 1 ==> forall x :: x in best || x == c ==> x in Inserted(best, p, c)[..m]
  {
    InsertedMembers(best, p, c);
    if m == |best| + 1 {
      assert Inserted(best, p, c)[..m] == Inserted(best, p, c);
    }
  }

  lemma PrefixFacts(all: seq<(real, nat)>, m: nat)
    requires Descending(all) && m <= |all|
    ensures Descending(all[..m])
    ensures forall x :: x in all[..m] ==> x in all
    ensures forall x :: x in all && x !in all[..m] ==> forall t :: 0 <= t < m ==> x.0 <= all[t].0
    ensures DistinctPositions(all) ==> DistinctPositions(all[..m])
  {
    assert forall w :: 0 <= w < m ==> all[w] in all[..m] by {
      forall w | 0 <= w < m ensures all[w] in all[..m] {
        assert all[..m][w] == all[w];
      }
    }
    forall x | x in all && x !in all[..m]
      ensures forall t :: 0 <= t < m ==> x.0 <= all[t].0
    {
      var w :| 0 <= w < |all| && all[w] == x;
      assert w >= m;
    }
  }

  lemma FullOfferKeepsFloor(best: seq<(real, nat)>, p: nat, c: (real, nat))
    requires p <= |best| && Descending(Inserted(best, p, c))
    ensures |best| > 0 ==>
              forall t :: 0 <= t < |best| ==> best[|best| - 1].0 <= Inserted(best, p, c)[t].0
  {
    var k := |best|;
    InsertedAt(best, p, c);
    if k > 0 {
      assert best[k - 1] == Inserted(best, p, c)[k - 1] || best[k - 1] == Inserted(best, p, c)[k];
    }
  }

  lemma InsertedAt(best: seq<(real, nat)>, p: nat, c: (real, nat))
    requires p <= |best|
    ensures |Inserted(best, p, c)| == |best| + 1
    ensures forall t :: 0 <= t < p ==> Inserted(best, p, c)[t] == best[t]
    ensures Inserted(best, p, c)[p] == c
    ensures forall t :: p < t <= |best| ==> Inserted(best, p, c)[t] == best[t - 1]
  {
  }

  lemma InsertedDescending(best: seq<(real, nat)>, p: nat, c: (real, nat))
    requires Descending(best) && p <= |best|
    requires forall t :: 0 <= t < p ==> best[t].0 >= c.0
    requires forall t :: p <= t < |best| ==> best[t].0 < c.0
    ensures Descending(Inserted(best, p, c))
  {
    InsertedAt(best, p, c);
  }

  lemma InsertedMembers(best: seq<(real, nat)>, p: nat, c: (real, nat))
    requires p <= |best|
    ensures forall x :: x in Inserted(best, p, c) <==> x in best || x == c
  {
    var all := Inserted(best, p, c);
    InsertedAt(best, p, c);
    forall x | x in best ensures x in all {
      var w :| 0 <= w < |best| && best[w] == x;
      if w < p { assert all[w] == x; } else { assert all[w + 1] == x; }
    }
    assert all[p] == c;
  }

  lemma InsertedDistinct(best: seq<(real, nat)>, p: nat, c: (real, nat))
    requires p <= |best|
    ensures DistinctPositions(best) && (forall t :: 0 <= t < |best| ==> best[t].1 != c.1) ==>
              DistinctPositions(Inserted(best, p, c))
  {
    InsertedAt(best, p, c);
  }

  /** The positions held in a candidate list. */
  function Positions(best: seq<(real, nat)>): (ps: seq<nat>)
    ensures |ps| == |best|
    ensures forall t :: 0 <= t < |best| ==> ps[t] == best[t].1
  {
    if |best| == 0 then [] else [best[0].1] + Positions(best[1..])
  }

  /** `VecSpace::top_k`: the `min(k, len)` best-scoring records under `sim`, best first,
      each with its score; no record left out scores above one that is returned. The
      positions the records were taken from are returned alongside, as a ghost. */
  method TopK(s: VecSpace, k: nat, sim: Vector -> real)
    returns (res: seq<(real, Vector)>, ghost picks: seq<nat>)
    requires Valid(s)
    ensures |res| == Min(k, Len(s))
    ensures forall t, u :: 0 <= t < u < |res| ==> res[t].0 >= res[u].0
    ensures forall t :: 0 <= t < |res| ==> res[t].0 == sim(res[t].1)
    ensures |picks| == |res|
    ensures forall t :: 0 <= t < |res| ==> picks[t] < Len(s) && res[t].1 == Rec(s, picks[t])
    ensures forall t, u :: 0 <= t < u < |picks| ==> picks[t] != picks[u]
    ensures forall j :: 0 <= j < Len(s) && j !in picks ==>
              forall t :: 0 <= t < |res| ==> sim(Rec(s, j)) <= res[t].0
  {
    ghost var dropped;
    var best;
    best, dropped := TopKScan(s, k, sim);
    TopKFinish(Scores(s, sim), k, best, dropped);
    res := seq(|best|, t requires 0 <= t < |best| => (best[t].0, Rec(s, best[t].1)));
    picks := Positions(best);
  }

  /** Every record's score, by position. */
  ghost function Scores(s: VecSpace, sim: Vector -> real): (r: seq<real>)
    requires Valid(s)
    ensures |r| == Len(s)
    ensures forall j :: 0 <= j < Len(s) ==> r[j] == sim(Rec(s, j))
  {
    seq(Len(s), j requires 0 <= j < Len(s) => sim(Rec(s, j)))
  }

  /** The scan of `top_k`: every record offered in turn to a bounded list kept best
      first. It ends with the best `min(k, len)` positions and their scores, best first. */
  method TopKScan(s: VecSpace, k: nat, sim: Vector -> real)
    returns (best: seq<(real, nat)>, ghost dropped: set<nat>)
    requires Valid(s)
    ensures KeptBest(Scores(s, sim), k, best, Len(s))
    ensures TopKInvariant(Scores(s, sim), k, best, dropped, Len(s))
  {
    ghost var scores := Scores(s, sim);
    best, dropped := [], {};
    var i := 0;
    while i < Len(s)
      invariant i <= Len(s)
      invariant TopKInvariant(scores, k, best, dropped, i)
    {
      var next := Offer(best, (sim(Rec(s, i)), i), k);
      ghost var dropped' := dropped + (set j | j in Positions(best) + [i] && j !in Positions(next));
      TopKStep(scores, k, best, dropped, i, next, dropped');
      best, dropped := next, dropped';
      i := i + 1;
    }
  }

  /** What the scan of `top_k` keeps true after looking at the first `i` scores:
      `best` holds the best `min(k, i)` of them with their positions, and `dropped`
      the positions of the others. */
  ghost predicate TopKInvariant(scores: seq<real>, k: nat, best: seq<(real, nat)>,
                                dropped: set<nat>, i: nat)
  {
    KeptBest(scores, k, best, i) && DroppedBelow(scores, k, best, dropped, i)
  }

  /** `best` is sorted, holds `min(k, i)` distinct positions below `i`, with their scores. */
  ghost predicate KeptBest(scores: seq<real>, k: nat, best: seq<(real, nat)>, i: nat) {
    && i <= |scores|
    && Descending(best)
    && |best| == Min(k, i)
    && (forall t :: 0 <= t < |best| ==> best[t].1 < i && best[t].0 == scores[best[t].1])
    && DistinctPositions(best)
  }

  /** Every position below `i` is kept or dropped, not both, and each dropped one scores
      no higher than any kept one; nothing is dropped while there is room. */
  ghost predicate DroppedBelow(scores: seq<real>, k: nat, best: seq<(real, nat)>,
                               dropped: set<nat>, i: nat)
  {
    && i <= |scores|
    && (forall j :: 0 <= j < i ==> j in dropped || j in Positions(best))
    && (forall j :: j in dropped ==> j < i && j !in Positions(best))
    && (forall j, t :: j in dropped && 0 <= t < |best| ==> scores[j] <= best[t].0)
    && (|best| < k ==> dropped == {})
  }

  lemma TopKStep(scores: seq<real>, k: nat, best: seq<(real, nat)>, dropped: set<nat>, i: nat,
                 next: seq<(real, nat)>, dropped': set<nat>)
    requires i < |scores| && TopKInvariant(scores, k, best, dropped, i)
    requires next == Offer(best, (scores[i], i), k)
    requires dropped' == dropped + (set j | j in Positions(best) + [i] && j !in Positions(next))
    ensures TopKInvariant(scores, k, next, dropped', i + 1)
  {
    var c := (scores[i], i);
    OfferSpec(best, c, k);
    StepKept(scores, k, best, c, next, i);
    StepDropped(scores, k, best, dropped, c, next, dropped', i);
  }

  lemma StepKept(scores: seq<real>, k: nat, best: seq<(real, nat)>, c: (real, nat),
                 next: seq<(real, nat)>, i: nat)
    requires i < |scores| && c == (scores[i], i) && KeptBest(scores, k, best, i)
    requires |next| == Min(|best| + 1, k) && OfferKept(best, c, k, next)
    ensures KeptBest(scores, k, next, i + 1)
  {
    StepEntries(scores, best, c, next, i);
  }

  lemma StepEntries(scores: seq<real>, best: seq<(real, nat)>, c: (real, nat),
                    next: seq<(real, nat)>, i: nat)
    requires i < |scores| && c == (scores[i], i)
    requires forall t :: 0 <= t < |best| ==> best[t].1 < i && best[t].0 == scores[best[t].1]
    requires forall x :: x in next ==> x in best || x == c
    ensures forall t :: 0 <= t < |next| ==> next[t].1 < i + 1 && next[t].0 == scores[next[t].1]
  {
    forall t | 0 <= t < |next|
      ensures next[t].1 < i + 1 && next[t].0 == scores[next[t].1]
    {
      assert next[t] in next;
      if next[t] != c {
        var w :| 0 <= w < |best| && best[w] == next[t];
      }
    }
  }

  lemma StepDropped(scores: seq<real>, k: nat, best: seq<(real, nat)>, dropped: set<nat>,
                    c: (real, nat), next: seq<(real, nat)>, dropped': set<nat>, i: nat)
    requires i < |scores| && c == (scores[i], i) && TopKInvariant(scores, k, best, dropped, i)
    requires |next| == Min(|best| + 1, k) && OfferKept(best, c, k, next)
    requires dropped' == dropped + (set j | j in Positions(best) + [i] && j !in Positions(next))
    ensures DroppedBelow(scores, k, next, dropped', i + 1)
  {
    StepCovers(best, dropped, next, dropped', i);
    StepDroppedOutside(scores, k, best, dropped, c, next, dropped', i);
    StepDroppedBelow(scores, k, best, dropped, c, next, dropped', i);
    if |next| < k {
      StepNothingDropped(best, c, next, i);
    }
  }

  lemma StepCovers(best: seq<(real, nat)>, dropped: set<nat>, next: seq<(real, nat)>,
                   dropped': set<nat>, i: nat)
    requires forall j :: 0 <= j < i ==> j in dropped || j in Positions(best)
    requires dropped' == dropped + (set j | j in Positions(best) + [i] && j !in Positions(next))
    ensures forall j :: 0 <= j < i + 1 ==> j in dropped' || j in Positions(next)
  {
    var ps := Positions(best);
    var pi := ps + [i];
    var extra := set j | j in pi && j !in Positions(next);
    assert dropped' == dropped + extra;
    assert pi[|ps|] == i;
    forall j | 0 <= j < i + 1 && j !in Positions(next) ensures j in dropped' {
      if j == i {
        assert j in pi;
        assert j in extra;
      } else if j !in dropped {
        assert j in ps;
        assert j in pi;
        assert j in extra;
      }
    }
  }

  lemma StepDroppedOutside(scores: seq<real>, k: nat, best: seq<(real, nat)>, dropped: set<nat>,
                           c: (real, nat), next: seq<(real, nat)>, dropped': set<nat>, i: nat)
    requires i < |scores| && c == (scores[i], i) && TopKInvariant(scores, k, best, dropped, i)
    requires forall x :: x in next ==> x in best || x == c
    requires dropped' == dropped + (set j | j in Positions(best) + [i] && j !in Positions(next))
    ensures forall j :: j in dropped' ==> j < i + 1 && j !in Positions(next)
  {
    forall t | 0 <= t < |next| ensures Positions(next)[t] == i || Positions(next)[t] in Positions(best) {
      assert next[t] in next;
      if next[t] != c {
        var w :| 0 <= w < |best| && best[w] == next[t];
        assert Positions(best)[w] == Positions(next)[t];
      }
    }
  }

  lemma StepDroppedBelow(scores: seq<real>, k: nat, best: seq<(real, nat)>, dropped: set<nat>,
                         c: (real, nat), next: seq<(real, nat)>, dropped': set<nat>, i: nat)
    requires i < |scores| && c == (scores[i], i)
    requires forall t :: 0 <= t < |best| ==> best[t].1 < i && best[t].0 == scores[best[t].1]
    requires forall j :: j in dropped ==> j < i
    requires forall j, t :: j in dropped && 0 <= t < |best| ==> scores[j] <= best[t].0
    requires forall x :: (x in best || x == c) && x !in next ==> forall t :: 0 <= t < |next| ==> x.0 <= next[t].0
    requires |best| == k > 0 ==> forall t :: 0 <= t < |next| ==> best[|best| - 1].0 <= next[t].0
    requires dropped != {} && |next| > 0 ==> |best| == k > 0
    requires dropped' == dropped + (set j | j in Positions(best) + [i] && j !in Positions(next))
    ensures forall j, t :: j in dropped' && 0 <= t < |next| ==> scores[j] <= next[t].0
  {
    var evicted := set j | j in Positions(best) + [i] && j !in Positions(next);
    EarlierDroppedBelow(scores, k, best, dropped, next);
    EvictedBelow(scores, best, c, next, evicted, i);
    assert dropped' == dropped + evicted;
  }

  /** Positions dropped before this step stay below every kept score. */
  lemma EarlierDroppedBelow(scores: seq<real>, k: nat, best: seq<(real, nat)>, dropped: set<nat>,
                            next: seq<(real, nat)>)
    requires forall j :: j in dropped ==> j < |scores|
    requires forall j, t :: j in dropped && 0 <= t < |best| ==> scores[j] <= best[t].0
    requires |best| == k > 0 ==> forall t :: 0 <= t < |next| ==> best[|best| - 1].0 <= next[t].0
    requires dropped != {} && |next| > 0 ==> |best| == k > 0
    ensures forall j, t :: j in dropped && 0 <= t < |next| ==> scores[j] <= next[t].0
  {
    forall j, t | j in dropped && 0 <= t < |next| ensures scores[j] <= next[t].0 {
      assert scores[j] <= best[|best| - 1].0;
    }
  }

  /** Positions the offer pushed out lie below every kept score. */
  lemma EvictedBelow(scores: seq<real>, best: seq<(real, nat)>, c: (real, nat),
                     next: seq<(real, nat)>, evicted: set<nat>, i: nat)
    requires i < |scores| && c == (scores[i], i)
    requires forall t :: 0 <= t < |best| ==> best[t].1 < i && best[t].0 == scores[best[t].1]
    requires forall x :: (x in best || x == c) && x !in next ==> forall t :: 0 <= t < |next| ==> x.0 <= next[t].0
    requires evicted == set j | j in Positions(best) + [i] && j !in Positions(next)
    ensures forall j, t :: j in evicted && 0 <= t < |next| ==> j < |scores| && scores[j] <= next[t].0
  {
    PositionsOfMembers(next);
    forall j | j in evicted ensures j < |scores| && forall t :: 0 <= t < |next| ==> scores[j] <= next[t].0 {
      if j == i {
        assert c !in next;
      } else {
        assert j in Positions(best);
        var w :| 0 <= w < |best| && Positions(best)[w] == j;
        assert best[w] in best;
        assert best[w] !in next;
      }
    }
  }

  lemma StepNothingDropped(best: seq<(real, nat)>, c: (real, nat), next: seq<(real, nat)>, i: nat)
    requires c.1 == i
    requires forall x :: x in best || x == c ==> x in next
    ensures forall j :: j in Positions(best) + [i] ==> j in Positions(next)
  {
    forall j | j in Positions(best) + [i] ensures j in Positions(next) {
      if j == i {
        assert c in next;
        var u :| 0 <= u < |next| && next[u] == c;
        assert Positions(next)[u] == j;
      } else {
        var w :| 0 <= w < |best| && Positions(best)[w] == j;
        assert best[w] in best;
        assert best[w] in next;
        var u :| 0 <= u < |next| && next[u] == best[w];
        assert Positions(next)[u] == j;
      }
    }
  }

  /** Reading the answer off the final candidate list. */
  lemma TopKFinish(scores: seq<real>, k: nat, best: seq<(real, nat)>, dropped: set<nat>)
    requires TopKInvariant(scores, k, best, dropped, |scores|)
    ensures forall j :: 0 <= j < |scores| && j !in Positions(best) ==>
              forall t :: 0 <= t < |best| ==> scores[j] <= best[t].0
    ensures forall t, u :: 0 <= t < u < |best| ==> Positions(best)[t] != Positions(best)[u]
  {
  }

  lemma PositionsOfMembers(xs: seq<(real, nat)>)
    ensures forall x :: x in xs ==> x.1 in Positions(xs)
  {
    forall x | x in xs ensures x.1 in Positions(xs) {
      var u :| 0 <= u < |xs| && xs[u] == x;
      assert Positions(xs)[u] == x.1;
    }
  }
}
