/** Path addresses into nested math lists (`MTMathListIndex`).

    An index is a singly-linked chain of nodes. Each node names an atom of
    the list it lives in and, through `subIndexType`, the branch of that atom
    (superscript, numerator, ...) into which the next node points. The chain
    ends at the node whose `subIndex` is nil. Every operation here is stated
    against `Path`, the chain read as a sequence of steps, outermost first. */
module MathListIndexes {
  import F = Foundation

  /** The branch a node's sub-index points into, in the header's order. */
  datatype SubIndexType =
    | None
    | Nucleus
    | Superscript
    | Subscript
    | Numerator
    | Denominator
    | Radicand
    | Degree

  /** The enum's integer value: `None` is 0 and the rest count up from it. */
  function Code(t: SubIndexType): (c: nat)
    ensures c < 8
    ensures c == 0 <==> t == None
  {
    match t
    case None => 0
    case Nucleus => 1
    case Superscript => 2
    case Subscript => 3
    case Numerator => 4
    case Denominator => 5
    case Radicand => 6
    case Degree => 7
  }

  /** The enum value with integer value `c`, if there is one. */
  function FromCode(c: int): (r: F.Option<SubIndexType>)
    ensures r.Some? <==> 0 <= c < 8
    ensures r.Some? ==> Code(r.value) == c
  {
    if c == 0 then F.Some(None)
    else if c == 1 then F.Some(Nucleus)
    else if c == 2 then F.Some(Superscript)
    else if c == 3 then F.Some(Subscript)
    else if c == 4 then F.Some(Numerator)
    else if c == 5 then F.Some(Denominator)
    else if c == 6 then F.Some(Radicand)
    else if c == 7 then F.Some(Degree)
    else F.None
  }

  /** Distinct enum values have distinct integer values. */
  lemma CodeInjective(s: SubIndexType, t: SubIndexType)
    requires Code(s) == Code(t)
    ensures s == t
  {
  }

  /** One node of the chain. */
  datatype MathListIndex = MathListIndex(
    atomIndex: nat,
    subIndexType: SubIndexType,
    subIndex: F.Option<MathListIndex>)

  /** A node read without its link. */
  datatype Step = Step(atomIndex: nat, subIndexType: SubIndexType)

  /** The chain as a sequence of steps, outermost node first. */
  function Path(i: MathListIndex): (p: seq<Step>)
    ensures |p| > 0 && p[0] == Step(i.atomIndex, i.subIndexType)
    ensures i.subIndex.None? <==> |p| == 1
    decreases i
  {
    [Step(i.atomIndex, i.subIndexType)]
      + (if i.subIndex.Some? then Path(i.subIndex.value) else [])
  }

  /** The chain whose steps are `p`. */
  function FromPath(p: seq<Step>): (i: MathListIndex)
    requires |p| > 0
    ensures Path(i) == p
    decreases |p|
  {
    var rest := if |p| == 1 then F.None else F.Some(FromPath(p[1..]));
    var i := MathListIndex(p[0].atomIndex, p[0].subIndexType, rest);
    assert Path(i) == [p[0]] + p[1..];
    i
  }

  /** A chain is determined by its steps. */
  lemma PathInjective(a: MathListIndex, b: MathListIndex)
    requires Path(a) == Path(b)
    ensures a == b
    decreases a
  {
    if a.subIndex.Some? {
      assert b.subIndex.Some?;
      assert Path(a)[1..] == Path(a.subIndex.value);
      assert Path(b)[1..] == Path(b.subIndex.value);
      PathInjective(a.subIndex.value, b.subIndex.value);
    }
  }

  lemma {:induction false} PathRoundTrip(i: MathListIndex)
    ensures FromPath(Path(i)) == i
  {
    PathInjective(FromPath(Path(i)), i);
  }

  /** The header's invariant: a node has type `None` exactly when it has no
      sub-index, i.e. exactly when it ends the chain. */
  predicate WellFormed(i: MathListIndex)
    decreases i
  {
    && (i.subIndexType == None <==> i.subIndex.None?)
    && (i.subIndex.Some? ==> WellFormed(i.subIndex.value))
  }

  /** The same invariant on steps: only the last step has type `None`. */
  predicate WellFormedPath(p: seq<Step>)
  {
    forall k :: 0 <= k < |p| ==> (p[k].subIndexType == None <==> k == |p| - 1)
  }

  lemma {:induction false} WellFormedIsPathWise(i: MathListIndex)
    ensures WellFormed(i) <==> WellFormedPath(Path(i))
    decreases i
  {
    var p := Path(i);
    if i.subIndex.Some? {
      var s := i.subIndex.value;
      WellFormedIsPathWise(s);
      assert forall k :: 1 <= k < |p| ==> p[k] == Path(s)[k - 1];
      if WellFormedPath(p) {
        assert WellFormedPath(Path(s)) by {
          forall k | 0 <= k < |Path(s)|
            ensures Path(s)[k].subIndexType == None <==> k == |Path(s)| - 1
          {
            assert p[k + 1] == Path(s)[k];
          }
        }
      }
    }
  }

  /** The number of links followed to reach the final node. */
  function Level(i: MathListIndex): (r: nat)
    ensures r == |Path(i)| - 1
    decreases i
  {
    if i.subIndex.None? then 0 else 1 + Level(i.subIndex.value)
  }

  /** `level0Index:` */
  function Level0Index(n: nat): (i: MathListIndex)
    ensures Path(i) == [Step(n, None)]
    ensures WellFormed(i) && Level(i) == 0
  {
    MathListIndex(n, None, F.None)
  }

  /** `indexAtLocation:withSubIndex:type:` puts a new node in front of
      `sub`; the result is well formed exactly when the type says whether a
      sub-index follows and the sub-index is well formed itself. */
  function IndexAtLocation(location: nat, sub: F.Option<MathListIndex>, t: SubIndexType): (i: MathListIndex)
    ensures Path(i) == [Step(location, t)] + (if sub.Some? then Path(sub.value) else [])
    ensures WellFormed(i) <==> ((t == None <==> sub.None?) && (sub.Some? ==> WellFormed(sub.value)))
  {
    MathListIndex(location, t, sub)
  }

  /** The atom index of the innermost node. */
  function FinalIndex(i: MathListIndex): (r: nat)
    ensures r == F.Last(Path(i)).atomIndex
    decreases i
  {
    if i.subIndex.None? then i.atomIndex else FinalIndex(i.subIndex.value)
  }

  /** `finalSubIndexType`: the branch taken by the innermost link, or `None`
      when the index has no link at all. */
  function FinalSubIndexType(i: MathListIndex): (r: SubIndexType)
    ensures Level(i) == 0 ==> r == None
    ensures Level(i) > 0 ==> r == Path(i)[|Path(i)| - 2].subIndexType
    decreases i
  {
    if i.subIndex.None? then None
    else if i.subIndex.value.subIndex.None? then i.subIndexType
    else FinalSubIndexType(i.subIndex.value)
  }

  /** On a well-formed index the innermost type is `None` exactly at level 0. */
  lemma {:induction false} FinalSubIndexTypeNone(i: MathListIndex)
    requires WellFormed(i)
    ensures FinalSubIndexType(i) == None <==> Level(i) == 0
  {
    WellFormedIsPathWise(i);
  }

  /** `hasSubIndexOfType:`, true when some node of the chain has type `t`. */
  function HasSubIndexOfType(i: MathListIndex, t: SubIndexType): (r: bool)
    ensures r <==> exists k :: 0 <= k < |Path(i)| && Path(i)[k].subIndexType == t
    decreases i
  {
    if i.subIndexType == t then
      assert Path(i)[0].subIndexType == t;
      true
    else if i.subIndex.None? then
      false
    else
      var s := i.subIndex.value;
      var r := HasSubIndexOfType(s, t);
      assert forall k :: 0 <= k < |Path(s)| ==> Path(s)[k] == Path(i)[k + 1];
      r
  }

  /** `levelUpWithSubIndex:type:` attaches `sub` below the innermost node,
      through a branch of type `t`. */
  function LevelUp(i: MathListIndex, sub: MathListIndex, t: SubIndexType): (r: MathListIndex)
    ensures Path(r) == Path(i)[..|Path(i)| - 1] + [Step(FinalIndex(i), t)] + Path(sub)
    ensures Level(r) == Level(i) + 1 + Level(sub)
    decreases i
  {
    if i.subIndex.None? then
      MathListIndex(i.atomIndex, t, F.Some(sub))
    else
      var up := LevelUp(i.subIndex.value, sub, t);
      var r := MathListIndex(i.atomIndex, i.subIndexType, F.Some(up));
      assert Path(r) == [Path(i)[0]] + Path(up);
      assert Path(i)[..|Path(i)| - 1] == [Path(i)[0]] + Path(i.subIndex.value)[..|Path(i.subIndex.value)| - 1];
      r
  }

  /** Levelling a well-formed index up keeps it well formed exactly when the
      new branch type is not `None`. */
  lemma {:induction false} LevelUpWellFormed(i: MathListIndex, sub: MathListIndex, t: SubIndexType)
    requires WellFormed(i) && WellFormed(sub)
    ensures WellFormed(LevelUp(i, sub, t)) <==> t != None
  {
    var r := LevelUp(i, sub, t);
    var p, q := Path(i), Path(sub);
    WellFormedIsPathWise(i);
    WellFormedIsPathWise(sub);
    WellFormedIsPathWise(r);
    var n := |p| - 1;
    assert Path(r)[n] == Step(FinalIndex(i), t);
    if t != None {
      forall k | 0 <= k < |Path(r)|
        ensures Path(r)[k].subIndexType == None <==> k == |Path(r)| - 1
      {
        if k < n {
          assert Path(r)[k] == p[k];
        } else if k > n {
          assert Path(r)[k] == q[k - n - 1];
        }
      }
    }
  }

  /** `levelDown`: nil for a level-0 index; otherwise the index without its
      innermost node, whose parent becomes the new end of the chain. */
  function LevelDown(i: MathListIndex): (r: F.Option<MathListIndex>)
    ensures r.None? <==> Level(i) == 0
    ensures r.Some? ==>
      var p := Path(i);
      Path(r.value) == p[..|p| - 2] + [Step(p[|p| - 2].atomIndex, None)]
    decreases i
  {
    if i.subIndex.None? then
      F.None
    else if i.subIndex.value.subIndex.None? then
      F.Some(Level0Index(i.atomIndex))
    else
      var down := LevelDown(i.subIndex.value).value;
      var r := MathListIndex(i.atomIndex, i.subIndexType, F.Some(down));
      ghost var p := Path(i);
      ghost var ps := Path(i.subIndex.value);
      assert p[..|p| - 2] == [p[0]] + ps[..|ps| - 2];
      F.Some(r)
  }

  /** Levelling down keeps an index well formed. */
  lemma {:induction false} LevelDownWellFormed(i: MathListIndex)
    requires WellFormed(i) && Level(i) > 0
    ensures WellFormed(LevelDown(i).value)
  {
    var p := Path(i);
    var d := Path(LevelDown(i).value);
    WellFormedIsPathWise(i);
    WellFormedIsPathWise(LevelDown(i).value);
    forall k | 0 <= k < |d|
      ensures d[k].subIndexType == None <==> k == |d| - 1
    {
      if k < |d| - 1 {
        assert d[k] == p[k];
      }
    }
  }

  /** Levelling down undoes levelling up by a single node. */
  lemma LevelDownUndoesLevelUp(i: MathListIndex, n: nat, t: SubIndexType)
    requires WellFormed(i)
    ensures LevelDown(LevelUp(i, Level0Index(n), t)) == F.Some(i)
  {
  }

  /** Levelling up by the innermost node undoes levelling down. */
  lemma {:induction false} LevelUpUndoesLevelDown(i: MathListIndex)
    requires WellFormed(i) && Level(i) > 0
    ensures LevelUp(LevelDown(i).value, Level0Index(FinalIndex(i)), FinalSubIndexType(i)) == i
  {
    var p := Path(i);
    WellFormedIsPathWise(i);
    var down := LevelDown(i).value;
    var up := LevelUp(down, Level0Index(FinalIndex(i)), FinalSubIndexType(i));
    var n := |p|;
    assert Path(up) == p[..n - 2] + [Step(p[n - 2].atomIndex, p[n - 2].subIndexType)] + [Step(p[n - 1].atomIndex, None)];
    assert Path(up) == p;
    PathInjective(up, i);
  }

  /** `next`: the following atom on the innermost line. */
  function Next(i: MathListIndex): (r: MathListIndex)
    ensures
      var p := Path(i);
      Path(r) == p[..|p| - 1] + [F.Last(p).(atomIndex := F.Last(p).atomIndex + 1)]
    decreases i
  {
    if i.subIndex.None? then
      i.(atomIndex := i.atomIndex + 1)
    else
      var r := i.(subIndex := F.Some(Next(i.subIndex.value)));
      assert Path(r) == [Path(i)[0]] + Path(Next(i.subIndex.value));
      r
  }

  /** `previous`: the preceding atom on the innermost line, or nil when the
      innermost node is already at the start of its line. */
  function Previous(i: MathListIndex): (r: F.Option<MathListIndex>)
    ensures r.None? <==> FinalIndex(i) == 0
    ensures r.Some? ==>
      var p := Path(i);
      Path(r.value) == p[..|p| - 1] + [F.Last(p).(atomIndex := F.Last(p).atomIndex - 1)]
    decreases i
  {
    if i.subIndex.None? then
      if i.atomIndex == 0 then F.None else F.Some(i.(atomIndex := i.atomIndex - 1))
    else
      match Previous(i.subIndex.value) {
        case None => F.None
        case Some(s) =>
          var r := i.(subIndex := F.Some(s));
          assert Path(r) == [Path(i)[0]] + Path(s);
          F.Some(r)
      }
  }

  /** `isAtBeginningOfLine`: the innermost node is at position 0. */
  function IsAtBeginningOfLine(i: MathListIndex): (r: bool)
    ensures r <==> F.Last(Path(i)).atomIndex == 0
    ensures r <==> Previous(i).None?
    decreases i
  {
    if i.subIndex.None? then i.atomIndex == 0 else IsAtBeginningOfLine(i.subIndex.value)
  }

  /** `previous` undoes `next`. */
  lemma {:induction false} PreviousUndoesNext(i: MathListIndex)
    ensures Previous(Next(i)) == F.Some(i)
  {
    var p := Path(i);
    var back := Previous(Next(i)).value;
    assert Path(back) == p[..|p| - 1] + [F.Last(p)];
    PathInjective(back, i);
  }

  /** `next` undoes `previous` wherever `previous` is defined. */
  lemma NextUndoesPrevious(i: MathListIndex)
    requires Previous(i).Some?
    ensures Next(Previous(i).value) == i
  {
  }

  /** `previous` applied `n` times, nil as soon as one step is nil. */
  function PreviousN(i: MathListIndex, n: nat): (r: F.Option<MathListIndex>)
    ensures r.Some? ==> Level(r.value) == Level(i)
    decreases n
  {
    if n == 0 then F.Some(i)
    else match Previous(i) {
      case None => F.None
      case Some(j) => PreviousN(j, n - 1)
    }
  }

  /** Walking back from `level0Index(n)` reaches `level0Index(0)` after `n`
      steps and falls off the start of the line one step later. */
  lemma {:induction false} WalkBackToStart(n: nat)
    ensures PreviousN(Level0Index(n), n) == F.Some(Level0Index(0))
    ensures PreviousN(Level0Index(n), n + 1) == F.None
    decreases n
  {
    if n > 0 {
      assert Previous(Level0Index(n)) == F.Some(Level0Index(n - 1));
      WalkBackToStart(n - 1);
    }
  }

  /** `isEqual:`, node by node. */
  function IsEqual(a: MathListIndex, b: MathListIndex): (r: bool)
    ensures r <==> a == b
    decreases a
  {
    && a.atomIndex == b.atomIndex
    && a.subIndexType == b.subIndexType
    && a.subIndex.Some? == b.subIndex.Some?
    && (a.subIndex.Some? ==> IsEqual(a.subIndex.value, b.subIndex.value))
  }

  /** `NSUInteger` holds values below 2^64. */
  const HashModulus: nat := 0x1_0000_0000_0000_0000

  /** `hash`, a combination of the node fields that fits an `NSUInteger`.
      It reads nothing but the chain, so indexes that are `IsEqual` hash
      equally. */
  function Hash(i: MathListIndex): (r: nat)
    ensures r < HashModulus
    decreases i
  {
    var h := (i.atomIndex * 31 + Code(i.subIndexType)) % HashModulus;
    if i.subIndex.None? then h else (h * 31 + Hash(i.subIndex.value)) % HashModulus
  }
}
