/** The closed hierarchy of row expressions, the scalar expressions of the
    relational layer: six variants, each carrying its result type, each
    serialised with a distinct JSON type name, and a visitor with one case
    per variant. */
module RowExpressions {
  import opened Wrappers

  /** An SQL type, known here only by its signature. */
  type Type = string

  datatype RowExpression =
    | Call(functionName: string, arguments: seq<RowExpression>, resultType: Type)
    | Constant(value: Option<string>, resultType: Type)
    | InputReference(field: int, resultType: Type)
    | LambdaDefinition(argumentTypes: seq<Type>, argumentNames: seq<string>, body: RowExpression, resultType: Type)
    | SpecialForm(form: string, arguments: seq<RowExpression>, resultType: Type)
    | VariableReference(name: string, resultType: Type)

  /** The six variants. */
  datatype Kind = CallKind | ConstantKind | InputKind | LambdaKind | SpecialKind | VariableKind

  function KindOf(e: RowExpression): Kind
  {
    match e
    case Call(_, _, _) => CallKind
    case Constant(_, _) => ConstantKind
    case InputReference(_, _) => InputKind
    case LambdaDefinition(_, _, _, _) => LambdaKind
    case SpecialForm(_, _, _) => SpecialKind
    case VariableReference(_, _) => VariableKind
  }

  /** The JSON type name written for each variant. */
  function TypeName(k: Kind): string
  {
    match k
    case CallKind => "call"
    case ConstantKind => "constant"
    case InputKind => "input"
    case LambdaKind => "lambda"
    case SpecialKind => "special"
    case VariableKind => "variable"
  }

  /** The variant a JSON type name selects, if any. */
  function ParseTypeName(name: string): Option<Kind>
  {
    if name == "call" then Some(CallKind)
    else if name == "constant" then Some(ConstantKind)
    else if name == "input" then Some(InputKind)
    else if name == "lambda" then Some(LambdaKind)
    else if name == "special" then Some(SpecialKind)
    else if name == "variable" then Some(VariableKind)
    else None
  }

  /** The type names in declaration order. */
  const TypeNames: seq<string> := ["call", "constant", "input", "lambda", "special", "variable"]

  /** The JSON type name of an expression. */
  function JsonTypeName(e: RowExpression): (name: string)
    ensures name in TypeNames
    ensures ParseTypeName(name) == Some(KindOf(e))
  {
    TypeName(KindOf(e))
  }

  /** Decoding the type name of any variant gives back that variant. */
  lemma TypeNameRoundTrip(k: Kind)
    ensures ParseTypeName(TypeName(k)) == Some(k)
  {
  }

  /** A name decodes to a variant exactly when it is that variant's name. */
  lemma ParseTypeNameExact(name: string, k: Kind)
    ensures ParseTypeName(name) == Some(k) <==> TypeName(k) == name
  {
  }

  /** The six type names are pairwise distinct, and the names are exactly
      the ones that decode. */
  lemma TypeNamesDistinct()
    ensures |TypeNames| == 6
    ensures forall i, j :: 0 <= i < j < |TypeNames| ==> TypeNames[i] != TypeNames[j]
    ensures forall k: Kind :: TypeName(k) in TypeNames
    ensures forall name :: ParseTypeName(name).Some? <==> name in TypeNames
  {
  }

  /** Every expression, whatever its variant, exposes its result type. */
  function GetType(e: RowExpression): Type
  {
    e.resultType
  }

  /** A visitor whose every case returns the visited expression's type. */
  function TypeVisitor<C>(): Visitor<Type, C>
  {
    var t := (e: RowExpression, c: C) => e.resultType;
    Visitor(t, t, t, t, t, t)
  }

  /** A visitor: one case per variant, each given the expression and a
      context. */
  datatype Visitor<R, !C> = Visitor(
    visitCall: (RowExpression, C) -> R,
    visitConstant: (RowExpression, C) -> R,
    visitInputReference: (RowExpression, C) -> R,
    visitLambda: (RowExpression, C) -> R,
    visitSpecialForm: (RowExpression, C) -> R,
    visitVariableReference: (RowExpression, C) -> R)

  /** The case of a visitor for one variant. */
  function CaseFor<R, C>(visitor: Visitor<R, C>, k: Kind): (RowExpression, C) -> R
  {
    match k
    case CallKind => visitor.visitCall
    case ConstantKind => visitor.visitConstant
    case InputKind => visitor.visitInputReference
    case LambdaKind => visitor.visitLambda
    case SpecialKind => visitor.visitSpecialForm
    case VariableKind => visitor.visitVariableReference
  }

  /** Double dispatch: the visitor's case for the receiver's variant. */
  function Accept<R, C>(e: RowExpression, visitor: Visitor<R, C>, context: C): R
  {
    match e
    case Call(_, _, _) => visitor.visitCall(e, context)
    case Constant(_, _) => visitor.visitConstant(e, context)
    case InputReference(_, _) => visitor.visitInputReference(e, context)
    case LambdaDefinition(_, _, _, _) => visitor.visitLambda(e, context)
    case SpecialForm(_, _, _) => visitor.visitSpecialForm(e, context)
    case VariableReference(_, _) => visitor.visitVariableReference(e, context)
  }

  /** `Accept` returns the result of the case for the receiver's variant,
      and two visitors that agree on that case agree on the result. */
  lemma AcceptDispatchesOnKind<R, C>(e: RowExpression, visitor: Visitor<R, C>, other: Visitor<R, C>, context: C)
    ensures Accept(e, visitor, context) == CaseFor(visitor, KindOf(e))(e, context)
    ensures CaseFor(visitor, KindOf(e)) == CaseFor(other, KindOf(e)) ==>
      Accept(e, visitor, context) == Accept(e, other, context)
  {
  }

  /** Visiting any expression with the type visitor reaches a case for its
      variant and yields the type the expression reports: the visitor covers
      all six variants and every variant carries a type. */
  lemma AcceptTypeVisitor<C>(e: RowExpression, context: C)
    ensures Accept(e, TypeVisitor(), context) == GetType(e)
    ensures Accept(e, TypeVisitor(), context) == CaseFor(TypeVisitor<C>(), KindOf(e))(e, context)
  {
  }
}
