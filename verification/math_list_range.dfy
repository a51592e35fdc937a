/** Spans of atoms on one line of a math list (`MTMathListRange`).

    A range starts at an index and covers `length` consecutive atoms of the
    innermost line that index points into. Ranges are compared through
    `Line`, which forgets the innermost position of an index, and through
    their lowest and one-past-highest positions on that line. */
module MathListRanges {
  import F = Foundation
  import opened MathListIndexes

  /** `makeRange:length:`, the range of `length` atoms from `start` on. */
  datatype MathListRange = MathListRange(start: MathListIndex, length: nat)

  /** The line an index lies on: its path with the innermost atom index
      cleared. Two indexes are on the same line when their lines agree. */
  function Line(i: MathListIndex): (l: seq<Step>)
    ensures |l| == |Path(i)|
  {
    var p := Path(i);
    p[..|p| - 1] + [F.Last(p).(atomIndex := 0)]
  }

  /** An index is determined by its line and its position on that line. */
  lemma SameLineSamePosition(a: MathListIndex, b: MathListIndex)
    requires Line(a) == Line(b) && FinalIndex(a) == FinalIndex(b)
    ensures a == b
  {
    var p, q := Path(a), Path(b);
    var n := |p|;
    assert p[n - 1].subIndexType == Line(a)[n - 1].subIndexType;
    assert q[n - 1].subIndexType == Line(b)[n - 1].subIndexType;
    forall k | 0 <= k < n
      ensures p[k] == q[k]
    {
      if k < n - 1 {
        assert p[k] == Line(a)[k];
        assert q[k] == Line(b)[k];
      }
    }
    assert p == q;
    PathInjective(a, b);
  }

  /** Below its first node, an index with a link lies on the line of its
      sub-index. */
  lemma {:induction false} LineCons(i: MathListIndex)
    requires i.subIndex.Some?
    ensures Line(i) == [Path(i)[0]] + Line(i.subIndex.value)
  {
    var p, s := Path(i), Path(i.subIndex.value);
    assert p == [p[0]] + s;
    assert p[..|p| - 1] == [p[0]] + s[..|s| - 1];
  }

  /** The lowest position the range covers. */
  function Lo(r: MathListRange): nat
  {
    FinalIndex(r.start)
  }

  /** One past the highest position the range covers. */
  function Hi(r: MathListRange): nat
  {
    FinalIndex(r.start) + r.length
  }

  /** The atom `j` points to lies in `r`. */
  predicate Covers(r: MathListRange, j: MathListIndex)
  {
    Line(j) == Line(r.start) && Lo(r) <= FinalIndex(j) < Hi(r)
  }

  /** `outer` spans every position of `inner`, on the same line. */
  predicate Contains(outer: MathListRange, inner: MathListRange)
  {
    Line(outer.start) == Line(inner.start) && Lo(outer) <= Lo(inner) && Hi(inner) <= Hi(outer)
  }

  /** `makeRange:`, the range of the single atom at `start`. */
  function MakeUnitRange(start: MathListIndex): (r: MathListRange)
    ensures r.length == 1 && Lo(r) == FinalIndex(start)
    ensures Line(r.start) == Line(start)
  {
    MathListRange(start, 1)
  }

  /** A unit range covers exactly the atom it starts at. */
  lemma UnitRangeCoversOnlyStart(start: MathListIndex, j: MathListIndex)
    ensures Covers(MakeUnitRange(start), j) <==> j == start
  {
    if Covers(MakeUnitRange(start), j) {
      SameLineSamePosition(j, start);
    }
  }

  /** `makeRangeForRange:`, a flat range of the top-level list. */
  function MakeRangeForRange(r: F.NSRange): (m: MathListRange)
    ensures WellFormed(m.start) && Level(m.start) == 0
    ensures Lo(m) == r.location && Hi(m) == r.End()
  {
    MathListRange(Level0Index(r.location), r.length)
  }

  /** `makeRangeForIndex:`, the single top-level atom at `n`. */
  function MakeRangeForIndex(n: nat): (m: MathListRange)
    ensures m == MakeUnitRange(Level0Index(n))
  {
    MakeRangeForRange(F.NSRange(n, 1))
  }

  /** The flat range of a range on the top-level line, if it is one. */
  function FlatRange(m: MathListRange): (r: F.Option<F.NSRange>)
    ensures r.Some? <==> Level(m.start) == 0
    ensures r.Some? ==> r.value.location == Lo(m) && r.value.End() == Hi(m)
    ensures r.Some? && WellFormed(m.start) ==> MakeRangeForRange(r.value) == m
  {
    if m.start.subIndex.None? then F.Some(F.NSRange(m.start.atomIndex, m.length)) else F.None
  }

  /** Flat ranges survive the trip through `makeRangeForRange:`. */
  lemma {:induction false} FlatRangeRoundTrip(r: F.NSRange)
    ensures FlatRange(MakeRangeForRange(r)) == F.Some(r)
  {
    assert Level0Index(r.location).subIndex.None?;
  }

  /** `subIndexRange`: the same span, seen from one level further in; nil
      when the start has no sub-index. */
  function SubIndexRange(m: MathListRange): (r: F.Option<MathListRange>)
    ensures r.Some? <==> Level(m.start) > 0
    ensures r.Some? ==> Path(r.value.start) == Path(m.start)[1..]
    ensures r.Some? ==> Lo(r.value) == Lo(m) && Hi(r.value) == Hi(m)
  {
    if m.start.subIndex.Some? then
      var s := m.start.subIndex.value;
      assert Path(m.start) == [Path(m.start)[0]] + Path(s);
      F.Some(MathListRange(s, m.length))
    else
      F.None
  }

  /** An index that enters the same branch of the same atom as the range's
      start lies in the range exactly when its sub-index lies in the
      sub-index range. */
  lemma SubIndexRangeCovers(m: MathListRange, j: MathListIndex)
    requires SubIndexRange(m).Some? && j.subIndex.Some?
    requires Path(j)[0] == Path(m.start)[0]
    ensures Covers(m, j) <==> Covers(SubIndexRange(m).value, j.subIndex.value)
  {
    LineCons(j);
    LineCons(m.start);
    var s, t := j.subIndex.value, m.start.subIndex.value;
    assert Line(j) == Line(m.start) <==> Line(s) == Line(t) by {
      if Line(j) == Line(m.start) {
        assert Line(s) == Line(j)[1..];
        assert Line(t) == Line(m.start)[1..];
      }
    }
  }

  /** `unionRange:`, the smallest range holding both ranges and everything
      between them; nil when they lie on different lines. */
  function UnionRange(a: MathListRange, b: MathListRange): (r: F.Option<MathListRange>)
    ensures r.Some? <==> Line(a.start) == Line(b.start)
    ensures r.Some? ==> Contains(r.value, a) && Contains(r.value, b)
  {
    if Line(a.start) != Line(b.start) then
      F.None
    else
      var first := if Lo(a) <= Lo(b) then a.start else b.start;
      var hi := if Hi(a) >= Hi(b) then Hi(a) else Hi(b);
      F.Some(MathListRange(first, hi - FinalIndex(first)))
  }

  /** No range holding both ranges is smaller than their union. */
  lemma UnionIsSmallest(a: MathListRange, b: MathListRange, c: MathListRange)
    requires UnionRange(a, b).Some?
    requires Contains(c, a) && Contains(c, b)
    ensures Contains(c, UnionRange(a, b).value)
  {
  }

  /** The order of the two ranges does not matter. */
  lemma UnionCommutes(a: MathListRange, b: MathListRange)
    ensures UnionRange(a, b) == UnionRange(b, a)
  {
    if Line(a.start) == Line(b.start) && Lo(a) == Lo(b) {
      SameLineSamePosition(a.start, b.start);
    }
  }

  /** Every range of `rs` starts on the line of the first one. */
  predicate OnOneLine(rs: seq<MathListRange>)
    requires |rs| > 0
  {
    forall k :: 0 <= k < |rs| ==> Line(rs[k].start) == Line(rs[0].start)
  }

  /** `c` holds every range of `rs`. */
  predicate ContainsAll(c: MathListRange, rs: seq<MathListRange>)
  {
    forall k :: 0 <= k < |rs| ==> Contains(c, rs[k])
  }

  lemma ContainsTransitive(a: MathListRange, b: MathListRange, c: MathListRange)
    requires Contains(a, b) && Contains(b, c)
    ensures Contains(a, c)
  {
  }

  /** `unionRanges:`, the union of a non-empty array of ranges on one line;
      nil for an empty array or ranges on different lines. */
  function UnionRanges(rs: seq<MathListRange>): (r: F.Option<MathListRange>)
    ensures r.Some? <==> |rs| > 0 && OnOneLine(rs)
    ensures r.Some? ==> ContainsAll(r.value, rs)
    decreases |rs|
  {
    if |rs| <= 1 then
      if |rs| == 0 then F.None else F.Some(rs[0])
    else
      var init := rs[..|rs| - 1];
      OnOneLineInit(rs);
      match UnionRanges(init) {
        case None => F.None
        case Some(u) =>
          UnionRangesStep(rs, u);
          UnionRange(u, F.Last(rs))
      }
  }

  lemma OnOneLineInit(rs: seq<MathListRange>)
    requires |rs| > 1
    ensures OnOneLine(rs) <==> OnOneLine(rs[..|rs| - 1]) && Line(F.Last(rs).start) == Line(rs[0].start)
  {
    var init := rs[..|rs| - 1];
    assert forall k :: 0 <= k < |init| ==> init[k] == rs[k];
  }

  /** Adding the last range to the union of the others. */
  lemma UnionRangesStep(rs: seq<MathListRange>, u: MathListRange)
    requires |rs| > 1
    requires OnOneLine(rs[..|rs| - 1]) && ContainsAll(u, rs[..|rs| - 1])
    ensures UnionRange(u, F.Last(rs)).Some? <==> OnOneLine(rs)
    ensures UnionRange(u, F.Last(rs)).Some? ==> ContainsAll(UnionRange(u, F.Last(rs)).value, rs)
  {
    var init := rs[..|rs| - 1];
    assert forall k :: 0 <= k < |init| ==> init[k] == rs[k];
    OnOneLineInit(rs);
    assert Contains(u, init[0]);
    var r := UnionRange(u, F.Last(rs));
    if r.Some? {
      forall k | 0 <= k < |rs|
        ensures Contains(r.value, rs[k])
      {
        if k < |init| {
          assert Contains(u, init[k]);
          ContainsTransitive(r.value, u, rs[k]);
        }
      }
    }
  }

  /** No range holding every range of `rs` is smaller than their union. */
  lemma {:induction false} UnionRangesIsSmallest(rs: seq<MathListRange>, c: MathListRange)
    requires UnionRanges(rs).Some?
    requires ContainsAll(c, rs)
    ensures Contains(c, UnionRanges(rs).value)
    decreases |rs|
  {
    if |rs| > 1 {
      var init := rs[..|rs| - 1];
      assert forall k :: 0 <= k < |init| ==> init[k] == rs[k];
      UnionRangesIsSmallest(init, c);
      UnionIsSmallest(UnionRanges(init).value, F.Last(rs), c);
    }
  }
}
