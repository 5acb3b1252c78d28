/** ParameterQueryMap: a stored-procedure parameter, rendered from the value of
    its expression and its optional name. */
module ParameterQueryMap {
  import Wrappers
  import opened ClrTypes
  import opened QueryParts

  /** A parameter part: its tag, its name (null when the one-argument
      constructor is used) and the expression that yields its value. */
  datatype ParameterQueryMap = ParameterQueryMap(op: OperationType, name: Option<string>, expression: string)

  /** The value an expression evaluates to: its ToString text and its runtime type. */
  datatype Value = Value(text: string, runtimeType: ClrType)

  /** The constructor without a name. */
  function Unnamed(op: OperationType, expression: string): (r: ParameterQueryMap)
    ensures r.op == op && r.expression == expression && r.name.None?
  {
    ParameterQueryMap(op, Wrappers.None, expression)
  }

  /** The constructor with a name. */
  function Named(op: OperationType, name: Option<string>, expression: string): (r: ParameterQueryMap)
    ensures r.op == op && r.expression == expression && r.name == name
  {
    ParameterQueryMap(op, name, expression)
  }

  /** string.IsNullOrEmpty(Name). */
  predicate HasNoName(p: ParameterQueryMap) {
    p.name.None? || p.name.value == ""
  }

  /** The name as string.Format writes it: null as the empty string. */
  function NameText(p: ParameterQueryMap): (r: string)
    ensures HasNoName(p) <==> r == ""
  {
    if p.name.None? then "" else p.name.value
  }

  /** Compile, as written. `value` is what evaluating the expression gives
      (None for null), `quote` is the dialect's GetQuotedValue (None when it
      declines) and `baseCompile` is the expression compiled to SQL. */
  function Compile(p: ParameterQueryMap, value: Option<Value>, quote: Value -> Option<string>,
                   baseCompile: string): (r: string)
    ensures value.Some? && quote(value.value).Some? && HasNoName(p) ==> r == quote(value.value).value
    ensures value.Some? && quote(value.value).Some? && !HasNoName(p) ==>
              r == p.name.value + "=" + quote(value.value).value
    ensures value.Some? && quote(value.value).None? ==> r == NameText(p) + "=" + value.value.text
    ensures value.None? && HasNoName(p) ==> r == "=" + baseCompile
    ensures value.None? && !HasNoName(p) ==> r == baseCompile
  {
    if value.Some? then
      var quoted := quote(value.value);
      if HasNoName(p) && quoted.Some? then quoted.value
      else if quoted.Some? then NameText(p) + "=" + quoted.value
      else NameText(p) + "=" + value.value.text
    else if HasNoName(p) then NameText(p) + "=" + baseCompile
    else baseCompile
  }

  /** As written, a named parameter whose value is null loses its name, and an
      unnamed one gets a leading "=". */
  lemma NullValueNameTestInverted(quote: Value -> Option<string>)
    ensures Compile(Named(Parameter, Wrappers.Some("@p"), "x"), Wrappers.None, quote, "NULL") == "NULL"
    ensures Compile(Unnamed(Parameter, "x"), Wrappers.None, quote, "NULL") == "=NULL"
  {
  }

  /** What a parameter renders to without its name. */
  function Bare(value: Option<Value>, quote: Value -> Option<string>, baseCompile: string): string {
    if value.Some? then
      if quote(value.value).Some? then quote(value.value).value else value.value.text
    else baseCompile
  }

  /** Compile with the null-value branch testing the name the right way round,
      as its comments describe: the name with the compiled expression when
      there is a name, the compiled expression alone when there is none. */
  function IntendedCompile(p: ParameterQueryMap, value: Option<Value>, quote: Value -> Option<string>,
                           baseCompile: string): string
  {
    if value.Some? then Compile(p, value, quote, baseCompile)
    else if HasNoName(p) then baseCompile
    else NameText(p) + "=" + baseCompile
  }

  /** A named parameter always renders as "name=" and its bare rendering. */
  lemma IntendedNamedAlwaysAssigns(p: ParameterQueryMap, value: Option<Value>,
                                   quote: Value -> Option<string>, baseCompile: string)
    requires !HasNoName(p)
    ensures IntendedCompile(p, value, quote, baseCompile) ==
              p.name.value + "=" + Bare(value, quote, baseCompile)
  {
  }

  /** An unnamed parameter renders bare, except for a value the dialect does
      not quote, which keeps the source's "=value". */
  lemma IntendedUnnamedIsBare(p: ParameterQueryMap, value: Option<Value>,
                              quote: Value -> Option<string>, baseCompile: string)
    requires HasNoName(p)
    requires value.None? || quote(value.value).Some?
    ensures IntendedCompile(p, value, quote, baseCompile) == Bare(value, quote, baseCompile)
  {
  }

  /** The correction changes the output exactly for null values, and there
      it moves the "=": a named parameter gains "name=" in front of what the
      code writes, an unnamed one loses the code's leading "=". */
  lemma IntendedDiffersExactlyOnNull(p: ParameterQueryMap, value: Option<Value>,
                                     quote: Value -> Option<string>, baseCompile: string)
    ensures IntendedCompile(p, value, quote, baseCompile) != Compile(p, value, quote, baseCompile) <==> value.None?
    ensures value.None? && !HasNoName(p) ==>
              IntendedCompile(p, value, quote, baseCompile) == NameText(p) + "=" + Compile(p, value, quote, baseCompile)
    ensures value.None? && HasNoName(p) ==>
              Compile(p, value, quote, baseCompile) == "=" + IntendedCompile(p, value, quote, baseCompile)
  {
    if value.None? {
      var written := Compile(p, value, quote, baseCompile);
      var intended := IntendedCompile(p, value, quote, baseCompile);
      if HasNoName(p) {
        assert |written| == |intended| + 1;
      } else {
        assert |intended| == |NameText(p)| + 1 + |written|;
      }
    }
  }
}
