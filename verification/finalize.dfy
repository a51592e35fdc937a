/** `finalized`: the normalising pass over a math list
    (iosMath/lib/MTMathList.h:133-136). It finalizes every nested list, gives
    each untracked atom its position in the list, fuses runs of adjacent
    numbers, and reclassifies operators as binary or unary from their
    neighbours. It returns a new list; the receiver is a value and is not
    changed. */
module Finalize {
  import opened Foundation
  import opened MathLists
  import opened Fusion
  import opened Reclassification

  // ---------------------------------------------------------------------
  // Tracking positions in the original list

  /** `r` numbers the atoms of `s`: every atom of `r` tracks a range; an atom
      that tracked one in `s` keeps it, and one that did not is given the
      position where the range of the atom before it in `r` ends (0 for the
      first atom), with length one. */
  predicate Numbered(s: seq<Atom>, r: seq<Atom>)
    requires |r| == |s|
  {
    && (forall i :: 0 <= i < |s| ==>
          && r[i].indexRange != NSRange(0, 0)
          && (s[i].indexRange != NSRange(0, 0) ==> r[i].indexRange == s[i].indexRange))
    && (|s| > 0 && s[0].indexRange == NSRange(0, 0) ==> r[0].indexRange == NSRange(0, 1))
    && (forall i :: 0 < i < |s| && s[i].indexRange == NSRange(0, 0) ==>
          r[i].indexRange == NSRange(r[i - 1].indexRange.End(), 1))
  }

  /** Numbers the untracked atoms of `s` from left to right; nothing but
      their ranges changes. */
  function Track(s: seq<Atom>): (r: seq<Atom>)
    ensures |r| == |s| && Numbered(s, r)
    ensures forall i :: 0 <= i < |s| ==>
      && r[i].(indexRange := s[i].indexRange) == s[i]
      && (s[i].indexRange != NSRange(0, 0) ==> r[i] == s[i])
    decreases |s|
  {
    if |s| == 0 then []
    else
      var t := Track(s[..|s| - 1]);
      var a := Last(s);
      var start := if |t| == 0 then 0 else Last(t).indexRange.End();
      t + [if a.indexRange == NSRange(0, 0) then a.(indexRange := NSRange(start, 1)) else a]
  }

  // ---------------------------------------------------------------------
  // The whole pass

  function FinalizedOption(o: Option<MathList>): (r: Option<MathList>)
    ensures r.Some? <==> o.Some?
    ensures r.Some? ==> Nuclei(r.value.atoms) == Nuclei(o.value.atoms)
    ensures OptionFinal(r)
    decreases o
  {
    match o
    case None => None
    case Some(l) => Some(Finalized(l))
  }

  function FinalizedBody(b: Body): (r: Body)
    ensures r.Plain? <==> b.Plain?
    ensures r.FractionBody? <==> b.FractionBody?
    ensures r.RadicalBody? <==> b.RadicalBody?
    ensures r.RadicalBody? ==> (r.degree.Some? <==> b.degree.Some?)
    ensures b.LargeOperatorBody? ==> r == b
    ensures r.FractionBody? ==>
      && Nuclei(r.numerator.atoms) == Nuclei(b.numerator.atoms)
      && Nuclei(r.denominator.atoms) == Nuclei(b.denominator.atoms)
    ensures r.RadicalBody? ==>
      && Nuclei(r.radicand.atoms) == Nuclei(b.radicand.atoms)
      && (r.degree.Some? ==> Nuclei(r.degree.value.atoms) == Nuclei(b.degree.value.atoms))
    ensures BodyFinal(r)
    decreases b
  {
    match b
    case Plain => Plain
    case FractionBody(num, den) => FractionBody(Finalized(num), Finalized(den))
    case RadicalBody(rad, deg) => RadicalBody(Finalized(rad), FinalizedOption(deg))
    case LargeOperatorBody(limits) => LargeOperatorBody(limits)
  }

  /** An atom with every nested list finalized; its own type, nucleus,
      fusion history, range and large-operator limits are kept. */
  function FinalizedAtom(a: Atom): (r: Atom)
    ensures r.atomType == a.atomType && r.nucleus == a.nucleus
    ensures r.fusedAtoms == a.fusedAtoms && r.indexRange == a.indexRange
    ensures r.superScript.Some? <==> a.superScript.Some?
    ensures r.subScript.Some? <==> a.subScript.Some?
    ensures Shaped(r) <==> Shaped(a)
    ensures a.body.LargeOperatorBody? ==> r.body == a.body
    ensures r.superScript.Some? ==> Nuclei(r.superScript.value.atoms) == Nuclei(a.superScript.value.atoms)
    ensures r.subScript.Some? ==> Nuclei(r.subScript.value.atoms) == Nuclei(a.subScript.value.atoms)
    ensures r.body.FractionBody? <==> a.body.FractionBody?
    ensures r.body.RadicalBody? <==> a.body.RadicalBody?
    ensures r.body.FractionBody? ==>
      && Nuclei(r.body.numerator.atoms) == Nuclei(a.body.numerator.atoms)
      && Nuclei(r.body.denominator.atoms) == Nuclei(a.body.denominator.atoms)
    ensures r.body.RadicalBody? ==>
      && Nuclei(r.body.radicand.atoms) == Nuclei(a.body.radicand.atoms)
      && (r.body.degree.Some? <==> a.body.degree.Some?)
      && (r.body.degree.Some? ==> Nuclei(r.body.degree.value.atoms) == Nuclei(a.body.degree.value.atoms))
    ensures ChildrenFinal(r)
    decreases a
  {
    a.(superScript := FinalizedOption(a.superScript),
       subScript := FinalizedOption(a.subScript),
       body := FinalizedBody(a.body))
  }

  /** The atoms of `l` with their nested lists finalized and their positions
      tracked: the input of the fusion pass. */
  function Prepared(l: MathList): (r: seq<Atom>)
    ensures |r| == |l.atoms| && Numbered(l.atoms, r) && AllSettled(r)
    ensures forall i :: 0 <= i < |r| ==>
      && r[i].atomType == l.atoms[i].atomType
      && r[i].nucleus == l.atoms[i].nucleus
      && r[i].fusedAtoms == l.atoms[i].fusedAtoms
    ensures forall i :: 0 <= i < |r| ==>
      r[i].(indexRange := l.atoms[i].indexRange) == FinalizedAtom(l.atoms[i])
    decreases l, 0
  {
    var A := seq(|l.atoms|, i requires 0 <= i < |l.atoms| => FinalizedAtom(l.atoms[i]));
    var r := Track(A);
    assert forall i :: 0 <= i < |A| ==> A[i].indexRange == l.atoms[i].indexRange;
    forall i | 0 <= i < |r|
      ensures Settled(r[i])
    {
      SettledByFields(r[i], A[i].(indexRange := r[i].indexRange));
    }
    r
  }

  /** `finalized`: the result is never longer than the list, is empty only
      when the list is, and is in final form at every depth (see IsFinal). */
  function Finalized(l: MathList): (r: MathList)
    ensures |r.atoms| <= |l.atoms|
    ensures |r.atoms| == 0 <==> |l.atoms| == 0
    ensures Nuclei(r.atoms) == Nuclei(l.atoms)
    ensures IsFinal(r)
    decreases l, 1
  {
    var P := Prepared(l);
    var O := FuseAll(P);
    NucleiPointwise(P, l.atoms);
    FuseAllKeepsNuclei(P);
    ReclassifyKeepsNuclei(O);
    FuseAllKeepsSettled(P);
    FuseAllLeavesNoFusible(P);
    ReclassifyKeepsFinalParts(O);
    ReclassifyIdempotent(O);
    MathList(Reclassify(O))
  }

  // ---------------------------------------------------------------------
  // What the result is made of

  /** Reclassifying changes no nucleus. */
  lemma ReclassifyKeepsNuclei(s: seq<Atom>)
    ensures Nuclei(Reclassify(s)) == Nuclei(s)
  {
    var r := Reclassify(s);
    forall i | 0 <= i < |s|
      ensures r[i].nucleus == s[i].nucleus
    {
      assert r[i].(atomType := s[i].atomType) == s[i];
    }
    NucleiPointwise(r, s);
  }

  /** Runs with pointwise equal nuclei have equal concatenated nuclei. */
  lemma {:induction false} NucleiPointwise(a: seq<Atom>, b: seq<Atom>)
    requires |a| == |b|
    requires forall i :: 0 <= i < |a| ==> a[i].nucleus == b[i].nucleus
    ensures Nuclei(a) == Nuclei(b)
    decreases |a|
  {
    if |a| > 0 {
      NucleiPointwise(a[..|a| - 1], b[..|b| - 1]);
    }
  }

  /** The finalized atoms are, in order, the fusions of the maximal runs of
      the prepared atoms, with only operator types changed. */
  lemma FinalizedFusesRuns(l: MathList)
    ensures var P := Prepared(l); var R := Runs(P); var r := Finalized(l).atoms;
      && IsRunPartition(P, R)
      && |r| == |R|
      && forall j :: 0 <= j < |R| ==>
           |R[j]| > 0 && r[j] == FuseRun(R[j]).(atomType := r[j].atomType)
           && SameUpToOperator(r[j].atomType, R[j][0].atomType)
  {
    PassFusesRuns(Prepared(l));
  }

  /** Fusing and then reclassifying `P` gives the fusions of its runs, with
      only operator types changed. */
  lemma PassFusesRuns(P: seq<Atom>)
    ensures var R := Runs(P); var r := Reclassify(FuseAll(P));
      && IsRunPartition(P, R)
      && |r| == |R|
      && forall j :: 0 <= j < |R| ==>
           |R[j]| > 0 && r[j] == FuseRun(R[j]).(atomType := r[j].atomType)
           && SameUpToOperator(r[j].atomType, R[j][0].atomType)
  {
    RunsArePartition(P);
    FuseAllFusesRuns(P);
    ReclassifiedRuns(FuseAll(P), Runs(P));
  }

  /** Reclassifying the fusions of runs changes only their types. */
  lemma ReclassifiedRuns(O: seq<Atom>, R: seq<seq<Atom>>)
    requires FusesRuns(O, R)
    ensures var r := Reclassify(O);
      && |r| == |R|
      && forall j :: 0 <= j < |R| ==>
           |R[j]| > 0 && r[j] == FuseRun(R[j]).(atomType := r[j].atomType)
           && SameUpToOperator(r[j].atomType, R[j][0].atomType)
  {
    var r := Reclassify(O);
    forall j | 0 <= j < |R|
      ensures r[j] == FuseRun(R[j]).(atomType := r[j].atomType)
      ensures SameUpToOperator(r[j].atomType, R[j][0].atomType)
    {
      assert r[j].(atomType := O[j].atomType) == O[j];
      assert O[j].atomType == R[j][0].atomType;
    }
  }

  /** What one finalized atom is made of: see FinalizedShape. */
  predicate RunResult(atoms: seq<Atom>, P: seq<Atom>, R: seq<seq<Atom>>, r: seq<Atom>, j: nat)
    requires |P| == |atoms| && |r| == |R| && j < |R|
  {
    var st := Start(R, j);
    && |R[j]| > 0 && st + |R[j]| <= |atoms|
    && R[j] == P[st..st + |R[j]|]
    && r[j].nucleus == Nuclei(atoms[st..st + |R[j]|])
    && SameUpToOperator(r[j].atomType, atoms[st].atomType)
    && r[j].indexRange == NSRange(P[st].indexRange.location, RangeLengths(R[j]))
    && (|R[j]| > 1 ==>
          && r[j].fusedAtoms == AllOriginals(R[j])
          && forall k :: st <= k < st + |R[j]| ==> atoms[k].atomType == Number)
  }

  /** The facts of one run put together, for sequences standing for the
      original atoms, the prepared atoms, the runs and the result. */
  lemma CombineRun(atoms: seq<Atom>, P: seq<Atom>, R: seq<seq<Atom>>, r: seq<Atom>, j: nat)
    requires |P| == |atoms| && |r| == |R| && j < |R|
    requires forall i :: 0 <= i < |P| ==>
      P[i].atomType == atoms[i].atomType && P[i].nucleus == atoms[i].nucleus
    requires IsRunPartition(P, R)
    requires |R[j]| > 0 && r[j] == FuseRun(R[j]).(atomType := r[j].atomType)
    requires SameUpToOperator(r[j].atomType, R[j][0].atomType)
    ensures RunResult(atoms, P, R, r, j)
  {
    RunIsSlice(P, R, j);
    RunOfAtoms(atoms, P, R[j], Start(R, j));
  }

  /** A run of a partition is a linked slice of the whole. */
  lemma RunIsSlice(P: seq<Atom>, R: seq<seq<Atom>>, j: nat)
    requires IsRunPartition(P, R) && j < |R|
    ensures var st := Start(R, j);
      && |R[j]| > 0 && Linked(R[j])
      && st + |R[j]| <= |P| && R[j] == P[st..st + |R[j]|]
  {
    PartsAreSlices(R);
  }

  /** A linked slice of atoms that agree pointwise with `atoms` in type and
      nucleus has the same nuclei and first type as the matching slice of
      `atoms`, which consists of numbers when it has more than one atom. */
  lemma RunOfAtoms(atoms: seq<Atom>, P: seq<Atom>, run: seq<Atom>, st: nat)
    requires |P| == |atoms|
    requires forall i :: 0 <= i < |P| ==>
      P[i].atomType == atoms[i].atomType && P[i].nucleus == atoms[i].nucleus
    requires |run| > 0 && Linked(run)
    requires st + |run| <= |P| && run == P[st..st + |run|]
    ensures Nuclei(run) == Nuclei(atoms[st..st + |run|])
    ensures run[0].atomType == atoms[st].atomType
    ensures |run| > 1 ==> forall k :: st <= k < st + |run| ==> atoms[k].atomType == Number
  {
    NucleiPointwise(run, atoms[st..st + |run|]);
    assert run[0] == P[st];
    if |run| > 1 {
      forall k | st <= k < st + |run|
        ensures atoms[k].atomType == Number
      {
        assert P[k] == run[k - st];
        if k - st < |run| - 1 {
          assert CanFuse(run[k - st], run[k - st + 1]);
        } else {
          assert CanFuse(run[k - st - 1], run[k - st]);
        }
      }
    }
  }

  /** One finalized atom is the fusion of its run, up to the operator type. */
  lemma FinalizedAt(l: MathList, j: nat)
    requires j < |Runs(Prepared(l))|
    ensures |Finalized(l).atoms| == |Runs(Prepared(l))|
    ensures var R := Runs(Prepared(l)); var r := Finalized(l).atoms;
      |R[j]| > 0 && r[j] == FuseRun(R[j]).(atomType := r[j].atomType)
      && SameUpToOperator(r[j].atomType, R[j][0].atomType)
  {
    FinalizedFusesRuns(l);
  }

  lemma FinalizedRun(l: MathList, j: nat)
    requires j < |Runs(Prepared(l))|
    ensures |Finalized(l).atoms| == |Runs(Prepared(l))|
    ensures RunResult(l.atoms, Prepared(l), Runs(Prepared(l)), Finalized(l).atoms, j)
  {
    var P := Prepared(l);
    var R := Runs(P);
    var r := Finalized(l).atoms;
    FinalizedAt(l, j);
    RunsArePartition(P);
    CombineRun(l.atoms, P, R, r, j);
  }

  /** `finalized` never lengthens the list. Its atoms come from consecutive
      maximal runs of the original atoms: each has the type of the first atom
      of its run (up to binary/unary reclassification), the nuclei of the
      whole run concatenated, and a range that starts where the run's first
      atom's range starts and is as long as all of theirs together. A run of
      more than one atom consists of numbers only and its result lists the
      originals behind the run as its fused atoms. */
  lemma FinalizedShape(l: MathList)
    ensures var P := Prepared(l); var R := Runs(P); var r := Finalized(l).atoms;
      && |r| == |R| <= |l.atoms|
      && forall j :: 0 <= j < |R| ==> RunResult(l.atoms, P, R, r, j)
  {
    var P := Prepared(l);
    var R := Runs(P);
    var r := Finalized(l).atoms;
    FinalizedFusesRuns(l);
    forall j | 0 <= j < |R|
      ensures RunResult(l.atoms, P, R, r, j)
    {
      FinalizedRun(l, j);
    }
  }

  /** A run of atoms with no fusion history has itself as its originals. */
  lemma {:induction false} AllOriginalsOfUnfused(run: seq<Atom>)
    requires forall i :: 0 <= i < |run| ==> run[i].fusedAtoms == []
    ensures AllOriginals(run) == run
    decreases |run|
  {
    if |run| > 0 {
      var init := run[..|run| - 1];
      assert forall i :: 0 <= i < |init| ==> init[i].fusedAtoms == [];
      AllOriginalsOfUnfused(init);
      assert Originals(Last(run)) == [Last(run)];
      assert AllOriginals(run) == init + [Last(run)];
      assert init + [Last(run)] == run;
    }
  }

  /** A run of atoms each tracking one position covers as many positions as
      it has atoms. */
  lemma {:induction false} RangeLengthsOfSingles(run: seq<Atom>)
    requires forall i :: 0 <= i < |run| ==> run[i].indexRange.length == 1
    ensures RangeLengths(run) == |run|
    decreases |run|
  {
    if |run| > 0 {
      RangeLengthsOfSingles(run[..|run| - 1]);
    }
  }

  /** `FinalizedTracksPositions` for one run. */
  predicate TracksPositions(P: seq<Atom>, R: seq<seq<Atom>>, r: seq<Atom>, j: nat)
    requires |r| == |R| && j < |R|
  {
    var st := Start(R, j);
    && st + |R[j]| <= |P|
    && r[j].indexRange == NSRange(st, |R[j]|)
    && r[j].fusedAtoms == (if |R[j]| > 1 then P[st..st + |R[j]|] else [])
  }

  /** The position facts of one run, for prepared atoms that each track their
      own position and have no fusion history. */
  lemma RunTracksPositions(P: seq<Atom>, R: seq<seq<Atom>>, r: seq<Atom>, j: nat)
    requires |r| == |R| && j < |R|
    requires forall i :: 0 <= i < |P| ==>
      P[i].indexRange == NSRange(i, 1) && P[i].fusedAtoms == []
    requires IsRunPartition(P, R)
    requires |R[j]| > 0 && r[j] == FuseRun(R[j]).(atomType := r[j].atomType)
    ensures TracksPositions(P, R, r, j)
  {
    RunIsSlice(P, R, j);
    SliceTracksPositions(P, R[j], Start(R, j));
  }

  /** A slice of atoms that each track their own position and have no
      fusion history fuses into an atom covering exactly the slice, whose
      fused atoms are the slice when it has more than one atom. */
  lemma SliceTracksPositions(P: seq<Atom>, run: seq<Atom>, st: nat)
    requires forall i :: 0 <= i < |P| ==>
      P[i].indexRange == NSRange(i, 1) && P[i].fusedAtoms == []
    requires |run| > 0 && st + |run| <= |P| && run == P[st..st + |run|]
    ensures FuseRun(run).indexRange == NSRange(st, |run|)
    ensures FuseRun(run).fusedAtoms == (if |run| > 1 then run else [])
  {
    assert forall i :: 0 <= i < |run| ==> run[i] == P[st + i];
    assert run[0].indexRange.location == st;
    RangeLengthsOfSingles(run);
    if |run| > 1 {
      AllOriginalsOfUnfused(run);
    } else {
      assert FuseRun(run).fusedAtoms == run[0].fusedAtoms;
    }
  }

  /** In a list with no tracked atom, the atom at `i` is numbered `i`. */
  lemma {:induction false} NumberedFreshAt(s: seq<Atom>, r: seq<Atom>, i: nat)
    requires |r| == |s| && Numbered(s, r) && i < |s|
    requires forall k :: 0 <= k < |s| ==> s[k].indexRange == NSRange(0, 0)
    ensures r[i].indexRange == NSRange(i, 1)
    decreases i
  {
    assert s[i].indexRange == NSRange(0, 0);
    if i > 0 {
      NumberedFreshAt(s, r, i - 1);
    }
  }

  lemma PreparedFresh(l: MathList)
    requires forall i :: 0 <= i < |l.atoms| ==> Untracked(l.atoms[i])
    ensures var P := Prepared(l);
      forall i :: 0 <= i < |P| ==> P[i].indexRange == NSRange(i, 1) && P[i].fusedAtoms == []
  {
    var P := Prepared(l);
    forall i | 0 <= i < |P|
      ensures P[i].indexRange == NSRange(i, 1)
    {
      NumberedFreshAt(l.atoms, P, i);
    }
  }

  lemma FinalizedLength(l: MathList)
    ensures |Finalized(l).atoms| == |Runs(Prepared(l))|
  {
    FuseAllFusesRuns(Prepared(l));
  }

  lemma FinalizedPositionsAt(l: MathList, j: nat)
    requires forall i :: 0 <= i < |l.atoms| ==> Untracked(l.atoms[i])
    requires j < |Runs(Prepared(l))|
    ensures |Finalized(l).atoms| == |Runs(Prepared(l))|
    ensures TracksPositions(Prepared(l), Runs(Prepared(l)), Finalized(l).atoms, j)
  {
    var P := Prepared(l);
    var R := Runs(P);
    var r := Finalized(l).atoms;
    FinalizedAt(l, j);
    PreparedFresh(l);
    RunsArePartition(P);
    RunTracksPositions(P, R, r, j);
  }

  /** For a list fresh from construction (no atom tracks a range or has a
      fusion history), every finalized atom's range is exactly the span of
      positions its run occupied in the original list, and a fused atom's
      fused atoms are exactly the prepared atoms of that span, in order; an
      atom that was not fused has no fused atoms. */
  lemma FinalizedTracksPositions(l: MathList)
    requires forall i :: 0 <= i < |l.atoms| ==> Untracked(l.atoms[i])
    ensures var P := Prepared(l); var R := Runs(P); var r := Finalized(l).atoms;
      |r| == |R| && forall j :: 0 <= j < |R| ==> TracksPositions(P, R, r, j)
  {
    var P := Prepared(l);
    var R := Runs(P);
    var r := Finalized(l).atoms;
    FinalizedLength(l);
    forall j | 0 <= j < |R|
      ensures TracksPositions(P, R, r, j)
    {
      FinalizedPositionsAt(l, j);
    }
  }

  // ---------------------------------------------------------------------
  // Consecutive ranges

  /** Every range starts where the range before it ends. */
  predicate Consecutive(s: seq<Atom>)
  {
    forall i :: 0 < i < |s| ==> s[i].indexRange.location == s[i - 1].indexRange.End()
  }

  /** The fusion pass keeps ranges consecutive, and the fused atoms span the
      same positions as the atoms they came from. */
  lemma {:induction false} FuseAllKeepsConsecutive(s: seq<Atom>)
    requires Consecutive(s)
    ensures var r := FuseAll(s);
      && Consecutive(r)
      && (|s| > 0 ==>
            && r[0].indexRange.location == s[0].indexRange.location
            && Last(r).indexRange.End() == Last(s).indexRange.End())
    decreases |s|
  {
    if |s| > 1 {
      var init := s[..|s| - 1];
      assert Consecutive(init) by {
        forall i | 0 < i < |init|
          ensures init[i].indexRange.location == init[i - 1].indexRange.End()
        {
          assert init[i] == s[i] && init[i - 1] == s[i - 1];
        }
      }
      FuseAllKeepsConsecutive(init);
      var out := FuseAll(init);
      var a := Last(s);
      assert a.indexRange.location == Last(out).indexRange.End();
      if CanFuse(Last(out), a) {
        FusedLastConsecutive(out, a);
      } else {
        var r := out + [a];
        forall i | 0 < i < |r|
          ensures r[i].indexRange.location == r[i - 1].indexRange.End()
        {
          if i < |r| - 1 {
            assert r[i] == out[i];
          }
        }
      }
    }
  }

  /** Fusing an atom that starts where the last atom ends into that atom. */
  lemma FusedLastConsecutive(out: seq<Atom>, a: Atom)
    requires |out| > 0 && Consecutive(out)
    requires a.indexRange.location == Last(out).indexRange.End()
    ensures var r := out[..|out| - 1] + [Fuse(Last(out), a)];
      && Consecutive(r)
      && r[0].indexRange.location == out[0].indexRange.location
      && Last(r).indexRange.End() == a.indexRange.End()
  {
    var r := out[..|out| - 1] + [Fuse(Last(out), a)];
    forall i | 0 < i < |r|
      ensures r[i].indexRange.location == r[i - 1].indexRange.End()
    {
      assert r[i - 1] == out[i - 1];
      if i < |r| - 1 {
        assert r[i] == out[i];
      }
    }
  }

  /** When the prepared ranges follow each other, so do the ranges of the
      finalized atoms, and together they span the same positions. */
  lemma FinalizedConsecutive(l: MathList)
    requires Consecutive(Prepared(l))
    ensures var P := Prepared(l); var r := Finalized(l).atoms;
      && Consecutive(r)
      && (|P| > 0 ==>
            && r[0].indexRange.location == P[0].indexRange.location
            && Last(r).indexRange.End() == Last(P).indexRange.End())
  {
    PassKeepsConsecutive(Prepared(l));
  }

  /** Fusing and reclassifying keep ranges consecutive and spanning the same
      positions. */
  lemma PassKeepsConsecutive(P: seq<Atom>)
    requires Consecutive(P)
    ensures var r := Reclassify(FuseAll(P));
      && Consecutive(r)
      && (|P| > 0 ==>
            && r[0].indexRange.location == P[0].indexRange.location
            && Last(r).indexRange.End() == Last(P).indexRange.End())
  {
    FuseAllKeepsConsecutive(P);
    ReclassifyKeepsRanges(FuseAll(P));
  }

  /** Reclassifying changes no range. */
  lemma ReclassifyKeepsRanges(s: seq<Atom>)
    ensures forall i :: 0 <= i < |s| ==> Reclassify(s)[i].indexRange == s[i].indexRange
  {
    var r := Reclassify(s);
    forall i | 0 <= i < |s|
      ensures r[i].indexRange == s[i].indexRange
    {
      assert r[i].(atomType := s[i].atomType) == s[i];
    }
  }

  /** The tracked atoms of `s` are its first `n`, and their ranges follow
      each other. */
  predicate TrackedPrefix(s: seq<Atom>, n: nat)
  {
    && n <= |s|
    && (forall i :: 0 <= i < n ==> s[i].indexRange != NSRange(0, 0))
    && (forall i :: n <= i < |s| ==> s[i].indexRange == NSRange(0, 0))
    && (forall i :: 0 < i < n ==> s[i].indexRange.location == s[i - 1].indexRange.End())
  }

  /** Untracked atoms appended after atoms with consecutive ranges are
      numbered on from the end of the last range. */
  lemma PreparedConsecutive(l: MathList, n: nat)
    requires TrackedPrefix(l.atoms, n)
    ensures Consecutive(Prepared(l))
  {
    var P := Prepared(l);
    forall i | 0 < i < |P|
      ensures P[i].indexRange.location == P[i - 1].indexRange.End()
    {
      if i < n {
        assert P[i].indexRange == l.atoms[i].indexRange;
        assert P[i - 1].indexRange == l.atoms[i - 1].indexRange;
      } else {
        assert l.atoms[i].indexRange == NSRange(0, 0);
      }
    }
  }

  /** `finalized` of a list whose tracked atoms come first, with ranges that
      follow each other, has ranges that follow each other: no two atoms of
      the result claim the same position. For a list with no tracked atom the
      ranges cover exactly the positions 0 to the list's length. */
  lemma FinalizedRangesConsecutive(l: MathList, n: nat)
    requires TrackedPrefix(l.atoms, n)
    ensures var r := Finalized(l).atoms;
      && Consecutive(r)
      && (n == 0 && |l.atoms| > 0 ==>
            && r[0].indexRange.location == 0
            && Last(r).indexRange.End() == |l.atoms|)
  {
    PreparedConsecutive(l, n);
    FinalizedConsecutive(l);
    if n == 0 && |l.atoms| > 0 {
      var P := Prepared(l);
      NumberedFreshAt(l.atoms, P, 0);
      NumberedFreshAt(l.atoms, P, |P| - 1);
    }
  }

  // ---------------------------------------------------------------------
  // Normal form and idempotence

  /** `l` is already in the form `finalized` produces: every atom tracks a
      range and has finalized nested lists, no neighbours can be fused, and
      every operator already has the class its context calls for. */
  predicate IsFinal(l: MathList)
    decreases l, 1
  {
    && (forall i :: 0 <= i < |l.atoms| ==> Settled(l.atoms[i]))
    && NoFusible(l.atoms)
    && Reclassify(l.atoms) == l.atoms
  }

  /** An atom that tracks a range and whose nested lists are final. */
  predicate Settled(a: Atom)
    decreases a, 1
  {
    a.indexRange != NSRange(0, 0) && ChildrenFinal(a)
  }

  predicate ChildrenFinal(a: Atom)
    decreases a, 0
  {
    OptionFinal(a.superScript) && OptionFinal(a.subScript) && BodyFinal(a.body)
  }

  predicate OptionFinal(o: Option<MathList>)
    decreases o
  {
    match o
    case None => true
    case Some(l) => IsFinal(l)
  }

  predicate BodyFinal(b: Body)
    decreases b
  {
    match b
    case Plain => true
    case FractionBody(num, den) => IsFinal(num) && IsFinal(den)
    case RadicalBody(rad, deg) => IsFinal(rad) && OptionFinal(deg)
    case LargeOperatorBody(_) => true
  }

  predicate AllSettled(s: seq<Atom>)
  {
    forall i :: 0 <= i < |s| ==> Settled(s[i])
  }

  /** The fusion pass keeps every atom settled: a fused atom takes its
      specialised fields from the first atom and its scripts from the last. */
  lemma {:induction false} FuseAllKeepsSettled(s: seq<Atom>)
    requires AllSettled(s)
    ensures AllSettled(FuseAll(s))
    decreases |s|
  {
    if |s| > 0 {
      var s' := s[..|s| - 1];
      assert AllSettled(s') by {
        forall i | 0 <= i < |s'|
          ensures Settled(s'[i])
        {
          assert s'[i] == s[i];
        }
      }
      FuseAllKeepsSettled(s');
      var out := FuseAll(s');
      assert Settled(Last(s));
      if |out| > 0 && CanFuse(Last(out), Last(s)) {
        var f := Fuse(Last(out), Last(s));
        assert Settled(Last(out));
        FuseKeepsSettled(Last(out), Last(s));
        var r := out[..|out| - 1] + [f];
        forall i | 0 <= i < |r|
          ensures Settled(r[i])
        {
          if i < |r| - 1 {
            assert r[i] == out[i];
          }
        }
      } else {
        var r := out + [Last(s)];
        forall i | 0 <= i < |r|
          ensures Settled(r[i])
        {
          if i < |r| - 1 {
            assert r[i] == out[i];
          }
        }
      }
    }
  }

  lemma SettledByFields(a: Atom, b: Atom)
    requires Settled(b) && a.indexRange == b.indexRange
    requires a.superScript == b.superScript && a.subScript == b.subScript && a.body == b.body
    ensures Settled(a)
  {
    assert ChildrenFinal(b);
  }

  lemma FuseKeepsSettled(a: Atom, b: Atom)
    requires Settled(a) && Settled(b)
    ensures Settled(Fuse(a, b))
  {
    var f := Fuse(a, b);
    assert ChildrenFinal(a) && ChildrenFinal(b);
    assert OptionFinal(f.superScript) && OptionFinal(f.subScript) && BodyFinal(f.body);
  }

  /** Reclassifying changes only types, so it keeps every atom settled and
      creates no fusible neighbours. */
  lemma ReclassifyKeepsFinalParts(s: seq<Atom>)
    requires AllSettled(s) && NoFusible(s)
    ensures AllSettled(Reclassify(s)) && NoFusible(Reclassify(s))
  {
    var r := Reclassify(s);
    forall i | 0 <= i < |r|
      ensures Settled(r[i])
    {
      assert r[i].(atomType := s[i].atomType) == s[i];
      SettledByFields(r[i], s[i]);
    }
    forall k | 0 <= k < |r| - 1
      ensures !CanFuse(r[k], r[k + 1])
    {
      assert !CanFuse(s[k], s[k + 1]);
      assert r[k].(atomType := s[k].atomType) == s[k];
      assert r[k + 1].(atomType := s[k + 1].atomType) == s[k + 1];
    }
  }

  /** A list already in final form is its own `finalized` result. */
  lemma {:induction false} FinalIsFixed(l: MathList)
    requires IsFinal(l)
    ensures Finalized(l) == l
    decreases l, 1
  {
    var A := seq(|l.atoms|, i requires 0 <= i < |l.atoms| => FinalizedAtom(l.atoms[i]));
    forall i | 0 <= i < |A|
      ensures A[i] == l.atoms[i]
    {
      assert Settled(l.atoms[i]);
      SettledAtomIsFixed(l.atoms[i]);
    }
    assert A == l.atoms;
    assert Track(A) == A;
    FuseAllKeepsNoFusible(A);
  }

  lemma {:induction false} SettledAtomIsFixed(a: Atom)
    requires ChildrenFinal(a)
    ensures FinalizedAtom(a) == a
    decreases a, 2
  {
    OptionIsFixed(a.superScript);
    OptionIsFixed(a.subScript);
    BodyIsFixed(a.body);
  }

  lemma {:induction false} OptionIsFixed(o: Option<MathList>)
    requires OptionFinal(o)
    ensures FinalizedOption(o) == o
    decreases o, 2
  {
    match o {
      case None =>
      case Some(l) => FinalIsFixed(l);
    }
  }

  lemma {:induction false} BodyIsFixed(b: Body)
    requires BodyFinal(b)
    ensures FinalizedBody(b) == b
    decreases b, 2
  {
    match b {
      case Plain =>
      case FractionBody(num, den) =>
        FinalIsFixed(num);
        FinalIsFixed(den);
      case RadicalBody(rad, deg) =>
        FinalIsFixed(rad);
        OptionIsFixed(deg);
      case LargeOperatorBody(_) =>
    }
  }

  /** Finalizing a finalized list changes nothing. */
  lemma FinalizedIdempotent(l: MathList)
    ensures Finalized(Finalized(l)) == Finalized(l)
  {
    FinalIsFixed(Finalized(l));
  }
}
