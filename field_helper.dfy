/** FieldHelper: the name of the member a property lambda refers to. */
module FieldHelper {
  import opened Wrappers

  /** How a member is declared: a property, with a getter that is static or not
      (None when it has no getter), or some other member (a field, a method). */
  datatype MemberKind = Property(getterIsStatic: Option<bool>) | OtherMember

  /** A reflected member: its name, its ToString text (such as "Int32 Id")
      and its kind. */
  datatype Member = Member(name: string, display: string, kind: MemberKind)

  /** The shapes of lambda body the helper looks at. */
  datatype Expr =
    | MemberAccess(member: Member)
    | Unary(operand: Expr)
    | Binary(left: Expr, right: Expr)
    | OtherExpr(text: string)

  /** What compiling and invoking the lambda without arguments gives. */
  datatype Evaluation = Evaluates(text: string) | EvaluatesToNull | Throws

  /** A lambda expression: its body, the outcome of evaluating it, and its
      ToString text. */
  datatype LambdaExpression = LambdaExpression(body: Expr, evaluation: Evaluation, text: string)

  /** The member the body refers to: the body itself, the operand of a unary
      body, or the left operand of a binary body, when that is a member access. */
  function AccessedMember(body: Expr): (r: Option<Member>)
    ensures r.Some? <==> body.MemberAccess? || (body.Unary? && body.operand.MemberAccess?) ||
                         (body.Binary? && body.left.MemberAccess?)
    ensures body.MemberAccess? ==> r == Some(body.member)
    ensures body.Unary? && body.operand.MemberAccess? ==> r == Some(body.operand.member)
    ensures body.Binary? && body.left.MemberAccess? ==> r == Some(body.left.member)
  {
    if body.MemberAccess? then Some(body.member)
    else if body.Unary? && body.operand.MemberAccess? then Some(body.operand.member)
    else if body.Binary? && body.left.MemberAccess? then Some(body.left.member)
    else None
  }

  /** The text used when the body is no member access: the evaluated value's
      string, or the expression's own text when evaluation throws (a null
      value throws on ToString inside the same try). */
  function FallbackText(e: LambdaExpression): string {
    match e.evaluation
    case Evaluates(t) => t
    case EvaluatesToNull => e.text
    case Throws => e.text
  }

  /** TryExtractPropertyName. A null lambda is refused; a property without a
      getter fails on the static test. */
  function TryExtractPropertyName(propertyExpression: Option<LambdaExpression>): (r: Result<string>)
    ensures propertyExpression.None? ==> r == Failure(ArgumentNull("propertyExpression"))
    ensures propertyExpression.Some? && AccessedMember(propertyExpression.value.body).None? ==>
              r == Success(FallbackText(propertyExpression.value))
    ensures propertyExpression.Some? && AccessedMember(propertyExpression.value.body).Some? ==>
              var m := AccessedMember(propertyExpression.value.body).value;
              (m.kind == Property(Some(false)) ==> r == Success(m.name)) &&
              (m.kind == OtherMember || m.kind == Property(Some(true)) ==> r == Success(m.display)) &&
              (m.kind == Property(None) ==> r == Failure(NullReference))
  {
    if propertyExpression.None? then Failure(ArgumentNull("propertyExpression"))
    else
      var memberExpression := AccessedMember(propertyExpression.value.body);
      if memberExpression.None? then Success(FallbackText(propertyExpression.value))
      else
        var member := memberExpression.value;
        if !member.kind.Property? then Success(member.display)
        else if member.kind.getterIsStatic.None? then Failure(NullReference)
        else if member.kind.getterIsStatic.value then Success(member.display)
        else Success(member.name)
  }

  /** A conversion around a member access, or a comparison with it on the
      left, names the same member as the bare access. */
  lemma WrappingKeepsName(m: Member, right: Expr, ev: Evaluation, text: string)
    ensures TryExtractPropertyName(Some(LambdaExpression(Unary(MemberAccess(m)), ev, text))) ==
            TryExtractPropertyName(Some(LambdaExpression(MemberAccess(m), ev, text)))
    ensures TryExtractPropertyName(Some(LambdaExpression(Binary(MemberAccess(m), right), ev, text))) ==
            TryExtractPropertyName(Some(LambdaExpression(MemberAccess(m), ev, text)))
  {
  }

  /** Only one level is looked through: a conversion of a conversion, or a
      member access on the right of a comparison, falls back to evaluation. */
  lemma OneLevelOnly(m: Member, left: Expr, ev: Evaluation, text: string)
    requires !left.MemberAccess?
    ensures TryExtractPropertyName(Some(LambdaExpression(Unary(Unary(MemberAccess(m))), ev, text))) ==
            Success(FallbackText(LambdaExpression(Unary(Unary(MemberAccess(m))), ev, text)))
    ensures TryExtractPropertyName(Some(LambdaExpression(Binary(left, MemberAccess(m)), ev, text))) ==
            Success(FallbackText(LambdaExpression(Binary(left, MemberAccess(m)), ev, text)))
  {
  }

  /** A successful extraction is the name or the ToString text of the
      accessed member, or the fallback text. */
  lemma ExtractedIsMemberOrFallback(e: LambdaExpression)
    requires TryExtractPropertyName(Some(e)).Success?
    ensures var r := TryExtractPropertyName(Some(e)).value;
      (AccessedMember(e.body).Some? && (r == AccessedMember(e.body).value.name || r == AccessedMember(e.body).value.display)) ||
      (AccessedMember(e.body).None? && r == FallbackText(e))
  {
  }
}
