/** The fusion step of `finalized` (iosMath/lib/MTMathList.h:57-66, 133-135):
    adjacent like atoms are combined with `fuse:` while the pass walks the list
    from left to right. The module also gives the independent, declarative
    description of the result: the list splits into maximal runs of fusible
    neighbours, and each output atom is the fusion of one run. */
module Fusion {
  import opened Foundation
  import opened MathLists

  /** `next` may be fused into `prev`: both are numbers, and `prev` carries no
      script that would end up in the middle of the combined nucleus. */
  predicate CanFuse(prev: Atom, next: Atom)
  {
    && prev.atomType == Number
    && prev.superScript == None
    && prev.subScript == None
    && next.atomType == Number
  }

  /** One step of the left-to-right pass: fuse `a` into the last output atom
      when allowed, otherwise append it. */
  function FuseStep(out: seq<Atom>, a: Atom): seq<Atom>
  {
    if |out| > 0 && CanFuse(Last(out), a) then out[..|out| - 1] + [Fuse(Last(out), a)]
    else out + [a]
  }

  /** The fusion pass over a whole sequence of atoms. */
  function FuseAll(s: seq<Atom>): (r: seq<Atom>)
    ensures |r| <= |s|
    ensures |r| == 0 <==> |s| == 0
    decreases |s|
  {
    if |s| == 0 then [] else FuseStep(FuseAll(s[..|s| - 1]), Last(s))
  }

  /** No two neighbours in `s` can be fused. */
  predicate NoFusible(s: seq<Atom>)
  {
    forall k :: 0 <= k < |s| - 1 ==> !CanFuse(s[k], s[k + 1])
  }

  /** Every neighbour pair inside a run can be fused. */
  predicate Linked(run: seq<Atom>)
  {
    forall k :: 0 <= k < |run| - 1 ==> CanFuse(run[k], run[k + 1])
  }

  /** Every run is non-empty and linked inside. */
  predicate LinkedRuns(R: seq<seq<Atom>>)
  {
    forall j :: 0 <= j < |R| ==> |R[j]| > 0 && Linked(R[j])
  }

  /** No run could be extended into the next one. */
  predicate Separated(R: seq<seq<Atom>>)
    requires LinkedRuns(R)
  {
    forall j :: 0 <= j < |R| - 1 ==> !CanFuse(Last(R[j]), R[j + 1][0])
  }

  /** `R` cuts `s` into maximal runs: in order, none empty, every run linked
      inside, and no run could be extended into the next one. */
  predicate IsRunPartition(s: seq<Atom>, R: seq<seq<Atom>>)
  {
    Concat(R) == s && LinkedRuns(R) && Separated(R)
  }

  /** The maximal runs of `s`, built from the left. */
  function Runs(s: seq<Atom>): (R: seq<seq<Atom>>)
    ensures |R| <= |s|
    ensures |R| == 0 <==> |s| == 0
    ensures forall j :: 0 <= j < |R| ==> |R[j]| > 0
    ensures |s| > 0 ==> Last(Last(R)) == Last(s)
    decreases |s|
  {
    if |s| == 0 then []
    else
      var R' := Runs(s[..|s| - 1]);
      if |s| > 1 && CanFuse(s[|s| - 2], Last(s)) then R'[..|R'| - 1] + [Last(R') + [Last(s)]]
      else R' + [[Last(s)]]
  }

  /** The nuclei of a run, concatenated in order. */
  function Nuclei(run: seq<Atom>): string
  {
    if |run| == 0 then "" else Nuclei(run[..|run| - 1]) + Last(run).nucleus
  }

  /** The total length of the ranges a run tracks. */
  function RangeLengths(run: seq<Atom>): (n: nat)
    ensures |run| > 0 ==> n >= run[0].indexRange.length
  {
    if |run| == 0 then 0 else RangeLengths(run[..|run| - 1]) + Last(run).indexRange.length
  }

  /** The original atoms behind a run, in order. */
  function AllOriginals(run: seq<Atom>): (r: seq<Atom>)
    ensures |r| >= |run|
  {
    if |run| == 0 then [] else AllOriginals(run[..|run| - 1]) + Originals(Last(run))
  }

  /** The single atom a run of fusible neighbours becomes: it has the type and
      specialised fields of the first atom, the scripts of the last, all the
      nuclei in order, a range starting where the first atom's range starts
      and as long as all of them together, and, when more than one atom was
      combined, the originals of all of them as its fused atoms. */
  function FuseRun(run: seq<Atom>): (r: Atom)
    requires |run| > 0
    ensures r.atomType == run[0].atomType && r.body == run[0].body
    ensures r.superScript == Last(run).superScript && r.subScript == Last(run).subScript
    ensures r.nucleus == Nuclei(run)
    ensures r.indexRange == NSRange(run[0].indexRange.location, RangeLengths(run))
    ensures |run| > 1 ==> r.fusedAtoms == AllOriginals(run)
    ensures |run| == 1 ==> r == run[0]
  {
    if |run| == 1 then run[0]
    else
      var init := run[..|run| - 1];
      assert AllOriginals(run) == AllOriginals(init) + Originals(Last(run));
      assert |init| == 1 ==> AllOriginals(init) == Originals(run[0]) by {
        if |init| == 1 {
          assert init[..0] == [];
        }
      }
      Fuse(FuseRun(init), Last(run))
  }

  // ---------------------------------------------------------------------
  // Facts about Concat

  lemma ConcatAppend<T>(parts: seq<seq<T>>, p: seq<T>)
    ensures Concat(parts + [p]) == Concat(parts) + p
  {
    assert (parts + [p])[..|parts|] == parts;
  }

  /** With non-empty parts, the last element of the whole is the last element
      of the last part. */
  lemma ConcatLast<T>(parts: seq<seq<T>>)
    requires |parts| > 0 && |Last(parts)| > 0
    ensures |Concat(parts)| > 0 && Last(Concat(parts)) == Last(Last(parts))
  {
  }

  /** Where part j starts in the whole. */
  function Start<T>(parts: seq<seq<T>>, j: nat): nat
    requires j <= |parts|
  {
    |Concat(parts[..j])|
  }

  /** Each part is the slice of the whole that starts at its start. */
  lemma {:induction false} PartsAreSlices<T>(parts: seq<seq<T>>)
    ensures forall j :: 0 <= j < |parts| ==>
      Start(parts, j) + |parts[j]| <= |Concat(parts)|
      && parts[j] == Concat(parts)[Start(parts, j)..Start(parts, j) + |parts[j]|]
    decreases |parts|
  {
    if |parts| > 0 {
      var init := parts[..|parts| - 1];
      PartsAreSlices(init);
      assert parts == init + [Last(parts)];
      ConcatAppend(init, Last(parts));
      forall j | 0 <= j < |parts|
        ensures Start(parts, j) + |parts[j]| <= |Concat(parts)|
        ensures parts[j] == Concat(parts)[Start(parts, j)..Start(parts, j) + |parts[j]|]
      {
        assert parts[..j] == init[..j] || j == |parts| - 1;
        if j < |parts| - 1 {
          assert parts[..j] == init[..j];
          assert Start(parts, j) == Start(init, j);
        } else {
          assert parts[..j] == init;
        }
      }
    }
  }

  // ---------------------------------------------------------------------
  // Growing and shrinking a run partition by one atom

  /** Adding an atom that fuses with the last run extends that run. */
  lemma ExtendLastRun(R: seq<seq<Atom>>, x: Atom)
    requires LinkedRuns(R) && Separated(R) && |R| > 0
    requires CanFuse(Last(Last(R)), x)
    ensures var R2 := R[..|R| - 1] + [Last(R) + [x]];
      LinkedRuns(R2) && Separated(R2) && Concat(R2) == Concat(R) + [x]
  {
    var init := R[..|R| - 1];
    var L := Last(R) + [x];
    var R2 := init + [L];
    assert R == init + [Last(R)];
    ConcatAppend(init, Last(R));
    ConcatAppend(init, L);
    assert Linked(L) by {
      assert Linked(Last(R));
      forall k | 0 <= k < |L| - 1
        ensures CanFuse(L[k], L[k + 1])
      {
        if k < |L| - 2 {
          assert L[k] == Last(R)[k] && L[k + 1] == Last(R)[k + 1];
        }
      }
    }
    assert LinkedRuns(R2) by {
      forall j | 0 <= j < |R2|
        ensures |R2[j]| > 0 && Linked(R2[j])
      {
        if j < |R2| - 1 {
          assert R2[j] == R[j];
        }
      }
    }
    forall j | 0 <= j < |R2| - 1
      ensures !CanFuse(Last(R2[j]), R2[j + 1][0])
    {
      assert R2[j] == R[j] && R2[j + 1][0] == R[j + 1][0];
    }
  }

  /** Adding an atom that does not fuse with the last run starts a new run. */
  lemma AppendRun(R: seq<seq<Atom>>, x: Atom)
    requires LinkedRuns(R) && Separated(R)
    requires |R| > 0 ==> !CanFuse(Last(Last(R)), x)
    ensures var R2 := R + [[x]];
      LinkedRuns(R2) && Separated(R2) && Concat(R2) == Concat(R) + [x]
  {
    var R2 := R + [[x]];
    ConcatAppend(R, [x]);
    assert LinkedRuns(R2) by {
      forall j | 0 <= j < |R2|
        ensures |R2[j]| > 0 && Linked(R2[j])
      {
        if j < |R2| - 1 {
          assert R2[j] == R[j];
        }
      }
    }
    forall j | 0 <= j < |R2| - 1
      ensures !CanFuse(Last(R2[j]), R2[j + 1][0])
    {
      if j < |R2| - 2 {
        assert R2[j] == R[j] && R2[j + 1] == R[j + 1];
      }
    }
  }

  /** Dropping a final one-atom run leaves a partition of the rest. */
  lemma DropLastRun(R: seq<seq<Atom>>)
    requires LinkedRuns(R) && Separated(R) && |R| > 0 && |Last(R)| == 1
    ensures var R2 := R[..|R| - 1];
      LinkedRuns(R2) && Separated(R2) && Concat(R) == Concat(R2) + Last(R)
  {
    var R2 := R[..|R| - 1];
    assert R == R2 + [Last(R)];
    ConcatAppend(R2, Last(R));
    assert LinkedRuns(R2) by {
      forall j | 0 <= j < |R2|
        ensures |R2[j]| > 0 && Linked(R2[j])
      {
        assert R2[j] == R[j];
      }
    }
    forall j | 0 <= j < |R2| - 1
      ensures !CanFuse(Last(R2[j]), R2[j + 1][0])
    {
      assert R2[j] == R[j] && R2[j + 1] == R[j + 1];
    }
  }

  /** Removing the last atom of a longer final run leaves a partition of the
      rest. */
  lemma ShrinkLastRun(R: seq<seq<Atom>>)
    requires LinkedRuns(R) && Separated(R) && |R| > 0 && |Last(R)| > 1
    ensures var L := Last(R); var R2 := R[..|R| - 1] + [L[..|L| - 1]];
      && LinkedRuns(R2) && Separated(R2)
      && Concat(R) == Concat(R2) + [Last(L)]
      && CanFuse(Last(Last(R2)), Last(L))
  {
    var L := Last(R);
    var L' := L[..|L| - 1];
    var init := R[..|R| - 1];
    var R2 := init + [L'];
    assert R == init + [L];
    assert L == L' + [Last(L)];
    ConcatAppend(init, L);
    ConcatAppend(init, L');
    assert Linked(L);
    assert CanFuse(L[|L| - 2], L[|L| - 1]);
    assert Linked(L') by {
      forall k | 0 <= k < |L'| - 1
        ensures CanFuse(L'[k], L'[k + 1])
      {
        assert L'[k] == L[k] && L'[k + 1] == L[k + 1];
      }
    }
    assert LinkedRuns(R2) by {
      forall j | 0 <= j < |R2|
        ensures |R2[j]| > 0 && Linked(R2[j])
      {
        if j < |R2| - 1 {
          assert R2[j] == R[j];
        }
      }
    }
    forall j | 0 <= j < |R2| - 1
      ensures !CanFuse(Last(R2[j]), R2[j + 1][0])
    {
      assert R2[j] == R[j] && R2[j + 1][0] == R[j + 1][0];
    }
  }

  // ---------------------------------------------------------------------
  // The runs are the unique maximal partition

  /** `Runs(s)` cuts `s` into maximal runs. */
  lemma {:induction false} RunsArePartition(s: seq<Atom>)
    ensures IsRunPartition(s, Runs(s))
    decreases |s|
  {
    if |s| > 0 {
      var s' := s[..|s| - 1];
      var x := Last(s);
      var R' := Runs(s');
      RunsArePartition(s');
      assert s == s' + [x];
      if |s| > 1 && CanFuse(s[|s| - 2], x) {
        assert Last(Last(R')) == s[|s| - 2];
        ExtendLastRun(R', x);
      } else {
        if |s| > 1 {
          assert Last(Last(R')) == s[|s| - 2];
        }
        AppendRun(R', x);
      }
    }
  }

  /** Any cut of `s` into maximal runs is `Runs(s)`: the runs are determined
      by `s` alone. */
  lemma {:induction false} RunPartitionUnique(s: seq<Atom>, R: seq<seq<Atom>>)
    requires IsRunPartition(s, R)
    ensures R == Runs(s)
    decreases |s|
  {
    if |R| == 0 {
      assert s == [];
    } else {
      var L := Last(R);
      if |L| == 1 {
        var R2 := R[..|R| - 1];
        DropLastRun(R);
        assert Concat(R2) == s[..|s| - 1];
        RunPartitionUnique(s[..|s| - 1], R2);
        UniqueSingletonCase(s, R);
      } else {
        var R2 := R[..|R| - 1] + [L[..|L| - 1]];
        ShrinkLastRun(R);
        assert Concat(R2) == s[..|s| - 1];
        RunPartitionUnique(s[..|s| - 1], R2);
        UniqueLongerCase(s, R);
      }
    }
  }

  /** The step of `RunPartitionUnique` for a final one-atom run. */
  lemma UniqueSingletonCase(s: seq<Atom>, R: seq<seq<Atom>>)
    requires IsRunPartition(s, R) && |R| > 0 && |Last(R)| == 1
    requires Runs(s[..|s| - 1]) == R[..|R| - 1]
    ensures R == Runs(s)
  {
    var R2 := R[..|R| - 1];
    var x := Last(Last(R));
    DropLastRun(R);
    assert Last(R) == [x];
    assert s == Concat(R2) + [x];
    if |s| > 1 {
      assert |R2| > 0;
      ConcatLast(R2);
      assert s[|s| - 2] == Last(Last(R2)) == Last(R[|R| - 2]);
      assert !CanFuse(Last(R[|R| - 2]), R[|R| - 1][0]);
    }
    assert R == R2 + [[x]];
  }

  /** The step of `RunPartitionUnique` for a final run of several atoms. */
  lemma UniqueLongerCase(s: seq<Atom>, R: seq<seq<Atom>>)
    requires IsRunPartition(s, R) && |R| > 0 && |Last(R)| > 1
    requires Runs(s[..|s| - 1]) == R[..|R| - 1] + [Last(R)[..|Last(R)| - 1]]
    ensures R == Runs(s)
  {
    var L := Last(R);
    var x := Last(L);
    var R2 := R[..|R| - 1] + [L[..|L| - 1]];
    ShrinkLastRun(R);
    assert s == Concat(R2) + [x];
    ConcatLast(R2);
    assert s[|s| - 2] == Last(Last(R2));
    assert R2[..|R2| - 1] == R[..|R| - 1];
    assert Last(R2) + [x] == L;
    assert R == R2[..|R2| - 1] + [Last(R2) + [x]];
  }

  // ---------------------------------------------------------------------
  // The left-to-right pass produces one fused atom per run

  /** `O` holds, in order, the fusion of each run of `R`. */
  predicate FusesRuns(O: seq<Atom>, R: seq<seq<Atom>>)
  {
    |O| == |R| && forall j :: 0 <= j < |R| ==> |R[j]| > 0 && O[j] == FuseRun(R[j])
  }

  /** A linked run's fusion can absorb a further atom exactly when the run's
      last atom could. */
  lemma FuseRunCanFuse(run: seq<Atom>, x: Atom)
    requires |run| > 0 && Linked(run)
    ensures CanFuse(FuseRun(run), x) <==> CanFuse(Last(run), x)
  {
    if |run| > 1 {
      assert CanFuse(run[0], run[1]);
      assert CanFuse(run[|run| - 2], run[|run| - 1]);
    }
  }

  lemma FusesRunsExtend(O: seq<Atom>, R: seq<seq<Atom>>, x: Atom)
    requires FusesRuns(O, R) && |R| > 0
    ensures FusesRuns(O[..|O| - 1] + [Fuse(Last(O), x)], R[..|R| - 1] + [Last(R) + [x]])
  {
    var L := Last(R) + [x];
    assert L[..|L| - 1] == Last(R);
    assert FuseRun(L) == Fuse(Last(O), x);
    var O2 := O[..|O| - 1] + [Fuse(Last(O), x)];
    var R2 := R[..|R| - 1] + [L];
    forall j | 0 <= j < |R2|
      ensures |R2[j]| > 0 && O2[j] == FuseRun(R2[j])
    {
      if j < |R2| - 1 {
        assert R2[j] == R[j] && O2[j] == O[j];
      }
    }
  }

  lemma FusesRunsAppend(O: seq<Atom>, R: seq<seq<Atom>>, x: Atom)
    requires FusesRuns(O, R)
    ensures FusesRuns(O + [x], R + [[x]])
  {
    var O2 := O + [x];
    var R2 := R + [[x]];
    forall j | 0 <= j < |R2|
      ensures |R2[j]| > 0 && O2[j] == FuseRun(R2[j])
    {
      if j < |R2| - 1 {
        assert R2[j] == R[j] && O2[j] == O[j];
      }
    }
  }

  /** The pass yields, in order, the fusion of each maximal run. */
  lemma {:induction false} FuseAllFusesRuns(s: seq<Atom>)
    ensures FusesRuns(FuseAll(s), Runs(s))
    decreases |s|
  {
    if |s| > 0 {
      var s' := s[..|s| - 1];
      var x := Last(s);
      var R' := Runs(s');
      var O' := FuseAll(s');
      FuseAllFusesRuns(s');
      RunsArePartition(s');
      if |s| > 1 {
        assert Linked(Last(R'));
        FuseRunCanFuse(Last(R'), x);
        assert Last(O') == FuseRun(Last(R'));
        assert CanFuse(Last(O'), x) <==> CanFuse(s[|s| - 2], x);
        if CanFuse(s[|s| - 2], x) {
          FusesRunsExtend(O', R', x);
        } else {
          FusesRunsAppend(O', R', x);
        }
      } else {
        FusesRunsAppend(O', R', x);
      }
    }
  }

  /** The pass leaves no two neighbours that could still be fused. */
  lemma {:induction false} FuseAllLeavesNoFusible(s: seq<Atom>)
    ensures NoFusible(FuseAll(s))
  {
    var R := Runs(s);
    var O := FuseAll(s);
    RunsArePartition(s);
    FuseAllFusesRuns(s);
    forall k | 0 <= k < |O| - 1
      ensures !CanFuse(O[k], O[k + 1])
    {
      assert Linked(R[k]);
      FuseRunCanFuse(R[k], O[k + 1]);
      assert !CanFuse(Last(R[k]), R[k + 1][0]);
      assert O[k + 1].atomType == R[k + 1][0].atomType;
    }
  }

  /** The nuclei of a sequence with one more atom at the end. */
  lemma NucleiAppend(s: seq<Atom>, a: Atom)
    ensures Nuclei(s + [a]) == Nuclei(s) + a.nucleus
  {
    assert (s + [a])[..|s|] == s;
  }

  /** One step of the pass adds the atom's nucleus at the end. */
  lemma FuseStepKeepsNuclei(out: seq<Atom>, a: Atom)
    ensures Nuclei(FuseStep(out, a)) == Nuclei(out) + a.nucleus
  {
    if |out| > 0 && CanFuse(Last(out), a) {
      var front := out[..|out| - 1];
      assert out == front + [Last(out)];
      NucleiAppend(front, Last(out));
      NucleiAppend(front, Fuse(Last(out), a));
    } else {
      NucleiAppend(out, a);
    }
  }

  /** Fusing loses no symbol and reorders none: the pass keeps the nuclei of
      the whole sequence, read in order. */
  lemma {:induction false} FuseAllKeepsNuclei(s: seq<Atom>)
    ensures Nuclei(FuseAll(s)) == Nuclei(s)
    decreases |s|
  {
    if |s| > 0 {
      var init := s[..|s| - 1];
      FuseAllKeepsNuclei(init);
      FuseStepKeepsNuclei(FuseAll(init), Last(s));
    }
  }

  /** A sequence with nothing left to fuse passes through unchanged. */
  lemma {:induction false} FuseAllKeepsNoFusible(s: seq<Atom>)
    requires NoFusible(s)
    ensures FuseAll(s) == s
    decreases |s|
  {
    if |s| > 0 {
      var s' := s[..|s| - 1];
      assert NoFusible(s') by {
        forall k | 0 <= k < |s'| - 1
          ensures !CanFuse(s'[k], s'[k + 1])
        {
          assert s'[k] == s[k] && s'[k + 1] == s[k + 1];
        }
      }
      FuseAllKeepsNoFusible(s');
      if |s| > 1 {
        assert !CanFuse(s[|s| - 2], s[|s| - 1]);
      }
      assert s' + [Last(s)] == s;
    }
  }
}
