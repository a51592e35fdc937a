/** The operator step of `finalized` (iosMath/lib/MTMathList.h:133-135):
    each binary or unary operator is reclassified from its neighbours. An
    operator is binary only between two operands; at the start of a list,
    after an operator of either class, a relation, an opening bracket,
    punctuation or a large operator, and before a relation, punctuation, a
    closing bracket or the end of the list, it is unary. */
module Reclassification {
  import opened MathLists

  predicate IsOperator(t: AtomType)
  {
    t == BinaryOperator || t == UnaryOperator
  }

  /** An atom of this type can stand as the left operand of a binary
      operator. */
  predicate EndsOperand(t: AtomType)
  {
    !(IsOperator(t) || t == Relation || t == Open || t == Punctuation || t == LargeOperator)
  }

  /** An atom of this type can follow a binary operator. */
  predicate AdmitsOperand(t: AtomType)
  {
    !(t == Relation || t == Punctuation || t == Close)
  }

  /** The atom at position i sits between two operands. */
  predicate BinaryContext(s: seq<Atom>, i: int)
    requires 0 <= i < |s|
  {
    && i > 0 && EndsOperand(s[i - 1].atomType)
    && i + 1 < |s| && AdmitsOperand(s[i + 1].atomType)
  }

  /** Two types agree up to the binary/unary distinction. */
  predicate SameUpToOperator(t: AtomType, u: AtomType)
  {
    t == u || (IsOperator(t) && IsOperator(u))
  }

  /** Every operator becomes binary or unary by its context; nothing else
      about any atom changes. The result is self-consistent: each operator's
      class is the one its neighbours in the result call for. */
  function Reclassify(s: seq<Atom>): (r: seq<Atom>)
    ensures |r| == |s|
    ensures forall i :: 0 <= i < |s| ==>
      && r[i].(atomType := s[i].atomType) == s[i]
      && SameUpToOperator(r[i].atomType, s[i].atomType)
    ensures forall i :: 0 <= i < |r| && IsOperator(r[i].atomType) ==>
      (r[i].atomType == BinaryOperator <==> BinaryContext(r, i))
  {
    var r := seq(|s|, i requires 0 <= i < |s| =>
      if IsOperator(s[i].atomType)
      then s[i].(atomType := if BinaryContext(s, i) then BinaryOperator else UnaryOperator)
      else s[i]);
    assert forall i :: 0 <= i < |s| ==> (BinaryContext(r, i) <==> BinaryContext(s, i));
    r
  }

  /** An operator that follows another operator is unary, whatever class the
      first one ends up with: in the list "- - 2" both minus signs are
      unary. */
  lemma OperatorAfterOperatorIsUnary(s: seq<Atom>, i: nat)
    requires 0 < i < |s| && IsOperator(s[i - 1].atomType) && IsOperator(s[i].atomType)
    ensures Reclassify(s)[i].atomType == UnaryOperator
  {
    var r := Reclassify(s);
    assert IsOperator(r[i - 1].atomType);
  }

  /** Reclassifying twice is reclassifying once. */
  lemma {:induction false} ReclassifyIdempotent(s: seq<Atom>)
    ensures Reclassify(Reclassify(s)) == Reclassify(s)
  {
    var r := Reclassify(s);
    var r2 := Reclassify(r);
    forall i | 0 <= i < |r|
      ensures r2[i] == r[i]
    {
      if IsOperator(r[i].atomType) {
        assert r2[i].atomType == BinaryOperator <==> BinaryContext(r, i);
      }
    }
  }
}
