/** The math-list data model: atoms, their specialisations, and the structural
    edits a math list supports (iosMath/lib/MTMathList.h). */
module MathLists {
  import opened Foundation

  /** The thirteen atom types, in declaration order. */
  datatype AtomType =
    | Ordinary
    | Number
    | Variable
    | LargeOperator
    | BinaryOperator
    | UnaryOperator
    | Relation
    | Open
    | Close
    | Fraction
    | Radical
    | Punctuation
    | Placeholder

  /** The fields a specialised atom adds to the common ones. */
  datatype Body =
    | Plain
    | FractionBody(numerator: MathList, denominator: MathList)
    | RadicalBody(radicand: MathList, degree: Option<MathList>)
    | LargeOperatorBody(limits: bool)

  /** An atom. `fusedAtoms` is empty unless the atom was formed by fusing
      others; an `indexRange` equal to NSRange(0, 0) means the atom does not
      yet track a position in an original list. */
  datatype Atom = Atom(
    atomType: AtomType,
    nucleus: string,
    superScript: Option<MathList>,
    subScript: Option<MathList>,
    body: Body,
    fusedAtoms: seq<Atom>,
    indexRange: NSRange)

  /** A math list: the atoms in rendering order. */
  datatype MathList = MathList(atoms: seq<Atom>)

  /** The error a Foundation array raises for an index or range past its end. */
  datatype EditError = IndexOutOfRange

  /** The specialised fields agree with the type: fractions, radicals and large
      operators carry their own fields, every other type carries none. */
  predicate Shaped(a: Atom)
  {
    && (a.atomType == Fraction <==> a.body.FractionBody?)
    && (a.atomType == Radical <==> a.body.RadicalBody?)
    && (a.atomType == LargeOperator <==> a.body.LargeOperatorBody?)
  }

  /** An atom straight from construction: no fusion history, no tracked range. */
  predicate Untracked(a: Atom)
  {
    a.fusedAtoms == [] && a.indexRange == NSRange(0, 0)
  }

  const EmptyList := MathList([])

  /** `atomWithType:value:` */
  function MakeAtom(t: AtomType, value: string): (a: Atom)
    ensures a.atomType == t && a.nucleus == value
    ensures a.superScript == None && a.subScript == None
    ensures Shaped(a) && Untracked(a)
  {
    var body :=
      match t
      case Fraction => FractionBody(EmptyList, EmptyList)
      case Radical => RadicalBody(EmptyList, None)
      case LargeOperator => LargeOperatorBody(false)
      case _ => Plain;
    Atom(t, value, None, None, body, [], NSRange(0, 0))
  }

  /** `initWithValue:limits:`: the limits flag is fixed here and the model has
      no operation that changes it afterwards. */
  function MakeLargeOperator(value: string, limits: bool): (a: Atom)
    ensures a.atomType == LargeOperator && a.nucleus == value
    ensures a.body == LargeOperatorBody(limits)
    ensures Shaped(a) && Untracked(a)
  {
    Atom(LargeOperator, value, None, None, LargeOperatorBody(limits), [], NSRange(0, 0))
  }

  /** The atoms an atom stands for: itself, or the originals it was fused from. */
  function Originals(a: Atom): (r: seq<Atom>)
    ensures |r| > 0
  {
    if a.fusedAtoms == [] then [a] else a.fusedAtoms
  }

  /** `fuse:` — merges `next` into `a`: the nuclei are concatenated, the
      originals of both are recorded in order, the tracked range grows by the
      length of `next`'s range, and the scripts of `next` (which follow the
      combined nucleus) become the scripts of the result. */
  function Fuse(a: Atom, next: Atom): (r: Atom)
    ensures r.nucleus == a.nucleus + next.nucleus
    ensures r.fusedAtoms == Originals(a) + Originals(next)
    ensures r.indexRange.location == a.indexRange.location
    ensures r.indexRange.length == a.indexRange.length + next.indexRange.length
    ensures r.atomType == a.atomType && r.body == a.body
    ensures r.superScript == next.superScript && r.subScript == next.subScript
  {
    a.(nucleus := a.nucleus + next.nucleus,
       fusedAtoms := Originals(a) + Originals(next),
       indexRange := NSRange(a.indexRange.location, a.indexRange.length + next.indexRange.length),
       superScript := next.superScript,
       subScript := next.subScript)
  }

  /** Fusing is associative, so the order in which a run is combined does not
      matter for the result. */
  lemma FuseAssociative(a: Atom, b: Atom, c: Atom)
    ensures Fuse(Fuse(a, b), c) == Fuse(a, Fuse(b, c))
  {
  }

  /** `addAtom:` */
  function AddAtom(l: MathList, a: Atom): (r: MathList)
    ensures |r.atoms| == |l.atoms| + 1
    ensures forall j :: 0 <= j < |l.atoms| ==> r.atoms[j] == l.atoms[j]
    ensures r.atoms[|l.atoms|] == a
  {
    MathList(l.atoms + [a])
  }

  /** `insertAtom:atIndex:`; an index past the end is an out-of-range error. */
  function InsertAtom(l: MathList, a: Atom, index: nat): (r: Result<MathList, EditError>)
    ensures r.Failure? <==> index > |l.atoms|
    ensures r.Success? ==>
      && |r.value.atoms| == |l.atoms| + 1
      && r.value.atoms[index] == a
      && (forall j :: 0 <= j < index ==> r.value.atoms[j] == l.atoms[j])
      && (forall j :: index <= j < |l.atoms| ==> r.value.atoms[j + 1] == l.atoms[j])
  {
    if index > |l.atoms| then Failure(IndexOutOfRange)
    else Success(MathList(l.atoms[..index] + [a] + l.atoms[index..]))
  }

  /** `removeLastAtom`; an empty list is left as it is. */
  function RemoveLastAtom(l: MathList): (r: MathList)
    ensures |l.atoms| == 0 ==> r == l
    ensures |l.atoms| > 0 ==> |r.atoms| == |l.atoms| - 1
    ensures forall j :: 0 <= j < |r.atoms| ==> r.atoms[j] == l.atoms[j]
  {
    if |l.atoms| == 0 then l else MathList(l.atoms[..|l.atoms| - 1])
  }

  /** `removeAtomAtIndex:`; an index at or past the end is an out-of-range error. */
  function RemoveAtomAtIndex(l: MathList, index: nat): (r: Result<MathList, EditError>)
    ensures r.Failure? <==> index >= |l.atoms|
    ensures r.Success? ==>
      && |r.value.atoms| == |l.atoms| - 1
      && (forall j :: 0 <= j < index ==> r.value.atoms[j] == l.atoms[j])
      && (forall j :: index <= j < |r.value.atoms| ==> r.value.atoms[j] == l.atoms[j + 1])
  {
    if index >= |l.atoms| then Failure(IndexOutOfRange)
    else Success(MathList(l.atoms[..index] + l.atoms[index + 1..]))
  }

  /** `removeAtomsInRange:`; a range reaching past the end is an out-of-range error. */
  function RemoveAtomsInRange(l: MathList, range: NSRange): (r: Result<MathList, EditError>)
    ensures r.Failure? <==> range.End() > |l.atoms|
    ensures r.Success? ==>
      && |r.value.atoms| == |l.atoms| - range.length
      && (forall j :: 0 <= j < range.location ==> r.value.atoms[j] == l.atoms[j])
      && (forall j :: range.location <= j < |r.value.atoms| ==> r.value.atoms[j] == l.atoms[j + range.length])
  {
    if range.End() > |l.atoms| then Failure(IndexOutOfRange)
    else Success(MathList(l.atoms[..range.location] + l.atoms[range.End()..]))
  }

  /** Removing the last atom undoes appending one. */
  lemma RemoveLastUndoesAdd(l: MathList, a: Atom)
    ensures RemoveLastAtom(AddAtom(l, a)) == l
  {
  }

  /** Removing the atom at `index` undoes inserting one there, and inserting
      at the end is appending. */
  lemma RemoveAtIndexUndoesInsert(l: MathList, a: Atom, index: nat)
    requires index <= |l.atoms|
    ensures InsertAtom(l, a, index).Success?
    ensures RemoveAtomAtIndex(InsertAtom(l, a, index).value, index) == Success(l)
    ensures index == |l.atoms| ==> InsertAtom(l, a, index) == Success(AddAtom(l, a))
  {
    var m := InsertAtom(l, a, index).value;
    var r := RemoveAtomAtIndex(m, index).value;
    assert r.atoms == l.atoms;
    if index == |l.atoms| {
      assert m.atoms == l.atoms + [a];
    }
  }

  /** Removing a one-atom range is removing that atom, and removing the last
      atom is removing the range that holds it. */
  lemma RemoveRangeGeneralisesRemoveAt(l: MathList, index: nat)
    ensures RemoveAtomsInRange(l, NSRange(index, 1)) == RemoveAtomAtIndex(l, index)
    ensures |l.atoms| > 0 ==>
      RemoveAtomsInRange(l, NSRange(|l.atoms| - 1, 1)) == Success(RemoveLastAtom(l))
  {
    if index < |l.atoms| {
      var r1 := RemoveAtomsInRange(l, NSRange(index, 1)).value;
      var r2 := RemoveAtomAtIndex(l, index).value;
      assert r1.atoms == r2.atoms;
    }
    if |l.atoms| > 0 {
      var r1 := RemoveAtomsInRange(l, NSRange(|l.atoms| - 1, 1)).value;
      assert r1.atoms == RemoveLastAtom(l).atoms;
    }
  }
}
