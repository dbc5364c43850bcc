/** The C++ types a problem may declare, and which serializers a call in the generated program can
    see. */
module CppTypes {
  datatype Type =
    | Int32T | Int64T | BoolT | StringT
    | VectorT(element: Type) | OptionalT(element: Type)
    | ListT | TreeT | RandomT | GraphT

  /** The serializers in the order of their declaration; those for runtime pointers come with the
      runtime code. */
  datatype Overload = ForInt | ForLong | ForBool | ForString | ForOptional | ForVectorBool | ForVector | ForPointer

  /** Where a call stands: in the driver behind all declarations, in the template for optionals, or
      in a template for vectors. */
  datatype Caller = Driver | OptionalBody | VectorBody

  /** The overloads for an argument type. No other one accepts it where these are out of sight: a
      vector converts to nothing, and a pointer always sees its own. */
  predicate Takes(o: Overload, ty: Type) {
    match ty
    case Int32T => o.ForInt?
    case Int64T => o.ForLong?
    case BoolT => o.ForBool?
    case StringT => o.ForString?
    case OptionalT(_) => o.ForOptional?
    case VectorT(e) => o.ForVector? || (e.BoolT? && o.ForVectorBool?)
    case _ => o.ForPointer?
  }

  /** Ordinary lookup in a template finds what is declared up to there. */
  predicate Declared(o: Overload, c: Caller) {
    match c
    case Driver => true
    case OptionalBody => !o.ForVectorBool? && !o.ForVector? && !o.ForPointer?
    case VectorBody => !o.ForPointer?
  }

  /** Argument-dependent lookup finds everything in the global namespace when the argument's type
      mentions a class of that namespace, as only the runtime pointers do; the namespaces of a
      template type include those of its arguments. */
  predicate MentionsPointer(ty: Type) {
    match ty
    case VectorT(e) => MentionsPointer(e)
    case OptionalT(e) => MentionsPointer(e)
    case _ => ty.ListT? || ty.TreeT? || ty.RandomT? || ty.GraphT?
  }

  predicate Visible(o: Overload, c: Caller, ty: Type) { Declared(o, c) || MentionsPointer(ty) }

  /** A call with an argument of that type compiles, and so do the calls in the chosen bodies. */
  ghost predicate Resolves(c: Caller, ty: Type)
    decreases ty
  {
    && (exists o :: Takes(o, ty) && Visible(o, c, ty))
    && match ty
       case VectorT(e) => Resolves(VectorBody, e)
       case OptionalT(e) => Resolves(OptionalBody, e)
       case _ => true
  }

  function Parts(ty: Type): set<Type> {
    {ty} + match ty
           case VectorT(e) => Parts(e)
           case OptionalT(e) => Parts(e)
           case _ => {}
  }

  /** An optional directly around a vector whose elements mention no runtime pointer. */
  predicate Blocked(ty: Type) { ty.OptionalT? && ty.element.VectorT? && !MentionsPointer(ty.element.element) }

  predicate Serializable(ty: Type) { forall p :: p in Parts(ty) ==> !Blocked(p) }

  lemma {:induction false} ResolvesFrom(c: Caller, ty: Type)
    ensures Resolves(c, ty) <==> Serializable(ty) && !(c.OptionalBody? && Blocked(OptionalT(ty)))
    decreases ty
  {
    assert ty in Parts(ty);
    assert Takes(ForInt, Int32T) && Takes(ForLong, Int64T) && Takes(ForBool, BoolT) && Takes(ForString, StringT);
    match ty
    case VectorT(e) =>
      assert Takes(ForVector, ty);
      ResolvesFrom(VectorBody, e);
      assert Parts(ty) == {ty} + Parts(e);
    case OptionalT(e) =>
      assert Takes(ForOptional, ty) && Visible(ForOptional, c, ty);
      ResolvesFrom(OptionalBody, e);
      assert Parts(ty) == {ty} + Parts(e);
    case _ =>
      assert Parts(ty) == {ty};
      assert MentionsPointer(ty) ==> Takes(ForPointer, ty) && Visible(ForPointer, c, ty);
  }

  /** The driver can print a value of a type exactly when no optional in the type directly wraps a
      vector without runtime pointers. */
  lemma ResolvesExactly(ty: Type)
    ensures Resolves(Driver, ty) <==> Serializable(ty)
  {
    ResolvesFrom(Driver, ty);
  }

  lemma SerializableLeaf(ty: Type)
    requires !ty.VectorT? && !ty.OptionalT?
    ensures Serializable(ty)
  {
    assert Parts(ty) == {ty};
  }

  lemma SerializableStep(e: Type)
    ensures Serializable(VectorT(e)) <==> Serializable(e)
    ensures Serializable(OptionalT(e)) <==> Serializable(e) && !Blocked(OptionalT(e))
  {
    assert Parts(VectorT(e)) == {VectorT(e)} + Parts(e) && Parts(OptionalT(e)) == {OptionalT(e)} + Parts(e);
  }

  /** The documented type `optional<vector<int>>` cannot be printed. The other way round, and with
      pointers inside, it can. */
  lemma OptionalVector()
    ensures !Resolves(Driver, OptionalT(VectorT(Int32T)))
    ensures Resolves(Driver, VectorT(OptionalT(Int32T))) && Resolves(Driver, OptionalT(OptionalT(Int32T)))
    ensures Resolves(Driver, OptionalT(ListT)) && Resolves(Driver, OptionalT(VectorT(ListT)))
  {
    hide Resolves, Serializable;
    SerializableLeaf(Int32T);
    SerializableLeaf(ListT);
    SerializableStep(Int32T);
    SerializableStep(ListT);
    SerializableStep(OptionalT(Int32T));
    SerializableStep(VectorT(Int32T));
    SerializableStep(VectorT(ListT));
    ResolvesExactly(OptionalT(VectorT(Int32T)));
    ResolvesExactly(VectorT(OptionalT(Int32T)));
    ResolvesExactly(OptionalT(OptionalT(Int32T)));
    ResolvesExactly(OptionalT(ListT));
    ResolvesExactly(OptionalT(VectorT(ListT)));
  }
}
