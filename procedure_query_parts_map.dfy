/** ProcedureQueryPartsMap: the parts of a stored-procedure call and their
    compilation to "declarations, EXEC name parameters, SELECT outputs". */
module ProcedureQueryPartsMap {
  import Wrappers
  import opened Text
  import opened QueryParts

  /** Environment.NewLine, as on Windows, where the library runs. */
  const NewLine: string := "\r\n"

  /** A procedure map: the procedure's name and the map's parts. */
  datatype ProcedureMap = ProcedureMap(procedureName: string, parts: seq<Part>)

  /** The constructor: a null or empty procedure name is refused. */
  function NewProcedureMap(procedure: Option<string>): (r: Wrappers.Result<ProcedureMap>)
    ensures r.Failure? <==> procedure.None? || procedure.value == ""
    ensures r.Failure? ==> r.error == Wrappers.ArgumentNullOrEmpty("procedure")
    ensures r.Success? ==> r.value.procedureName == procedure.value && r.value.parts == []
  {
    if procedure.None? || procedure.value == "" then Wrappers.Failure(Wrappers.ArgumentNullOrEmpty("procedure"))
    else Wrappers.Success(ProcedureMap(procedure.value, []))
  }

  /** The parts tagged `op`, in map order. */
  function TaggedParts(ps: seq<Part>, op: OperationType): (r: seq<Part>)
    ensures |r| <= |ps|
    decreases |ps|
  {
    if |ps| == 0 then []
    else TaggedParts(ps[..|ps| - 1], op) + (if ps[|ps| - 1].Op() == op then [ps[|ps| - 1]] else [])
  }

  /** Exactly the parts with the tag are kept. */
  lemma {:induction false} TaggedPartsExactly(ps: seq<Part>, op: OperationType)
    ensures forall x :: x in TaggedParts(ps, op) <==> x in ps && x.Op() == op
    decreases |ps|
  {
    if |ps| > 0 {
      var n := |ps| - 1;
      TaggedPartsExactly(ps[..n], op);
      assert ps == ps[..n] + [ps[n]];
    }
  }

  /** The Parameters property: the parameter parts, in map order. */
  function Parameters(ps: seq<Part>): (r: seq<Part>)
    ensures |r| <= |ps|
    decreases |ps|
  {
    if |ps| == 0 then []
    else Parameters(ps[..|ps| - 1]) + (if ps[|ps| - 1].IsParameter() then [ps[|ps| - 1]] else [])
  }

  /** Exactly the parameter parts are kept. */
  lemma {:induction false} ParametersExactly(ps: seq<Part>)
    ensures forall x :: x in Parameters(ps) <==> x in ps && x.IsParameter()
    decreases |ps|
  {
    if |ps| > 0 {
      var n := |ps| - 1;
      ParametersExactly(ps[..n]);
      assert ps == ps[..n] + [ps[n]];
    }
  }

  /** The parameters of a concatenation are the parameters of each half, in
      order: Parameters keeps the map's order. */
  lemma {:induction false} ParametersInOrder(a: seq<Part>, b: seq<Part>)
    ensures Parameters(a + b) == Parameters(a) + Parameters(b)
    decreases |b|
  {
    if |b| == 0 {
      assert a + b == a;
    } else {
      var n := |b| - 1;
      assert (a + b)[..|a + b| - 1] == a + b[..n];
      ParametersInOrder(a, b[..n]);
    }
  }

  /** Compiled texts of parts, in order. */
  function TextsOf(ps: seq<Part>, compile: Part -> string): (r: seq<string>)
    ensures |r| == |ps| && forall i :: 0 <= i < |ps| ==> r[i] == compile(ps[i])
  {
    seq(|ps|, i requires 0 <= i < |ps| => compile(ps[i]))
  }

  lemma TextsOfSnoc(ps: seq<Part>, p: Part, compile: Part -> string)
    ensures TextsOf(ps + [p], compile) == TextsOf(ps, compile) + [compile(p)]
  {
  }

  /** Each string followed by a line break (StringBuilder.AppendLine in a loop). */
  function Lines(xs: seq<string>): string
    decreases |xs|
  {
    if |xs| == 0 then "" else Lines(xs[..|xs| - 1]) + xs[|xs| - 1] + NewLine
  }

  /** The select line for the output parameters, as the source's loop builds it:
      the first suffix part opens "SELECT"; a non-empty value is written after a
      space, preceded by ", " unless its part is the first one. */
  function SelectOutput(xs: seq<string>): string
    decreases |xs|
  {
    if |xs| == 0 then ""
    else
      var prev := SelectOutput(xs[..|xs| - 1]);
      var separator := prev != "";
      var head := if prev == "" then "SELECT" else prev;
      var v := xs[|xs| - 1];
      if v != "" then head + " " + (if separator then ", " else "") + v else head
  }

  /** The query text of a procedure map given the compiled text of each part. */
  function QueryText(m: ProcedureMap, compile: Part -> string): string {
    DeclarationsOf(m.parts, compile)
    + "EXEC " + m.procedureName + " "
    + Text.Join(TextsOf(Parameters(m.parts), compile), ", ")
    + NewLine
    + SelectOutputOf(m.parts, compile) + NewLine
  }

  /** The declarations of the first parts, one line per non-empty prefix. */
  function DeclarationsOf(ps: seq<Part>, compile: Part -> string): string {
    Lines(NonEmpty(TextsOf(TaggedParts(ps, OutParameterPrefix), compile)))
  }

  lemma DeclarationsStep(ps: seq<Part>, i: nat, compile: Part -> string)
    requires i < |ps|
    ensures DeclarationsOf(ps[..i + 1], compile) ==
              DeclarationsOf(ps[..i], compile) +
              (if ps[i].Op() == OutParameterPrefix && compile(ps[i]) != "" then compile(ps[i]) + NewLine else "")
  {
    assert ps[..i + 1][..i] == ps[..i];
    var tagged := TaggedParts(ps[..i], OutParameterPrefix);
    if ps[i].Op() == OutParameterPrefix {
      assert TaggedParts(ps[..i + 1], OutParameterPrefix) == tagged + [ps[i]];
      TextsOfSnoc(tagged, ps[i], compile);
      LinesNonEmptySnoc(TextsOf(tagged, compile), compile(ps[i]));
    } else {
      assert TaggedParts(ps[..i + 1], OutParameterPrefix) == tagged;
    }
  }

  lemma LinesNonEmptySnoc(xs: seq<string>, x: string)
    ensures Lines(NonEmpty(xs + [x])) == Lines(NonEmpty(xs)) + (if x != "" then x + NewLine else "")
  {
    if x != "" {
      LinesKept(xs, x);
    } else {
      LinesDropped(xs, x);
    }
  }

  lemma LinesKept(xs: seq<string>, x: string)
    requires x != ""
    ensures Lines(NonEmpty(xs + [x])) == Lines(NonEmpty(xs)) + x + NewLine
  {
    NonEmptySnoc(xs, x);
    LinesSnoc(NonEmpty(xs), x);
  }

  lemma LinesDropped(xs: seq<string>, x: string)
    requires x == ""
    ensures Lines(NonEmpty(xs + [x])) == Lines(NonEmpty(xs))
  {
    NonEmptySnoc(xs, x);
    assert NonEmpty(xs + [x]) == NonEmpty(xs);
  }

  lemma LinesSnoc(ys: seq<string>, y: string)
    ensures Lines(ys + [y]) == Lines(ys) + y + NewLine
  {
    assert (ys + [y])[..|ys|] == ys;
  }

  /** The declarations loop: the non-empty out-parameter prefixes, one per line. */
  method Declarations(ps: seq<Part>, compile: Part -> string) returns (sb: string)
    ensures sb == DeclarationsOf(ps, compile)
  {
    sb := "";
    var i := 0;
    while i < |ps|
      invariant 0 <= i <= |ps|
      invariant sb == DeclarationsOf(ps[..i], compile)
    {
      DeclarationsStep(ps, i, compile);
      if ps[i].Op() == OutParameterPrefix {
        var value := compile(ps[i]);
        if value != "" {
          sb := sb + value + NewLine;
        }
      }
      i := i + 1;
    }
    assert ps[..i] == ps;
  }

  /** The parameter loop: every parameter's text, ", " after all but the last. */
  method ParameterList(params: seq<Part>, compile: Part -> string) returns (sb: string)
    ensures sb == Text.Join(TextsOf(params, compile), ", ")
  {
    sb := "";
    var j := 0;
    while j < |params|
      invariant 0 <= j <= |params|
      invariant j == 0 ==> sb == ""
      invariant 0 < j < |params| ==> sb == Text.Join(TextsOf(params[..j], compile), ", ") + ", "
      invariant 0 < j == |params| ==> sb == Text.Join(TextsOf(params[..j], compile), ", ")
    {
      var value := compile(params[j]);
      assert TextsOf(params[..j + 1], compile) == TextsOf(params[..j], compile) + [value];
      JoinSnoc(TextsOf(params[..j], compile), value, ", ");
      sb := sb + value + (if j == |params| - 1 then "" else ", ");
      j := j + 1;
    }
    assert params[..j] == params;
  }

  /** The select line over the first parts. */
  function SelectOutputOf(ps: seq<Part>, compile: Part -> string): string {
    SelectOutput(TextsOf(TaggedParts(ps, OutParameterSufix), compile))
  }

  lemma SelectOutputStep(ps: seq<Part>, i: nat, compile: Part -> string)
    requires i < |ps|
    ensures ps[i].Op() != OutParameterSufix ==>
              SelectOutputOf(ps[..i + 1], compile) == SelectOutputOf(ps[..i], compile)
    ensures ps[i].Op() == OutParameterSufix ==>
              var prev := SelectOutputOf(ps[..i], compile);
              var head := if prev == "" then "SELECT" else prev;
              var v := compile(ps[i]);
              SelectOutputOf(ps[..i + 1], compile) ==
                if v != "" then head + " " + (if prev != "" then ", " else "") + v else head
  {
    assert ps[..i + 1][..i] == ps[..i];
    var tagged := TaggedParts(ps[..i], OutParameterSufix);
    if ps[i].Op() == OutParameterSufix {
      assert TaggedParts(ps[..i + 1], OutParameterSufix) == tagged + [ps[i]];
      TextsOfSnoc(tagged, ps[i], compile);
      var texts := TextsOf(tagged, compile) + [compile(ps[i])];
      assert texts[..|texts| - 1] == TextsOf(tagged, compile);
    } else {
      assert TaggedParts(ps[..i + 1], OutParameterSufix) == tagged;
    }
  }

  /** The output loop, with the source's two variables. */
  method SelectLine(ps: seq<Part>, compile: Part -> string) returns (selectoutput: string)
    ensures selectoutput == SelectOutputOf(ps, compile)
  {
    selectoutput := "";
    var i := 0;
    while i < |ps|
      invariant 0 <= i <= |ps|
      invariant selectoutput == SelectOutputOf(ps[..i], compile)
    {
      SelectOutputStep(ps, i, compile);
      if ps[i].Op() == OutParameterSufix {
        var separator := true;
        if selectoutput == "" {
          selectoutput := "SELECT";
          separator := false;
        }
        var value := compile(ps[i]);
        if value != "" {
          selectoutput := selectoutput + " " + (if separator then ", " else "") + value;
        }
      }
      i := i + 1;
    }
    assert ps[..i] == ps;
  }

  /** Compile: the declarations, the EXEC line with its parameters, an empty
      line break and the select line; the compiled query refers to the map's
      parts. */
  method Compile(m: ProcedureMap, compile: Part -> string) returns (q: CompiledQuery)
    ensures q.queryString == QueryText(m, compile)
    ensures q.queryParts == m.parts
  {
    var sb := Declarations(m.parts, compile);
    sb := sb + "EXEC " + m.procedureName + " ";
    var params := ParameterList(Parameters(m.parts), compile);
    sb := sb + params;
    var selectoutput := SelectLine(m.parts, compile);
    sb := sb + NewLine;
    sb := sb + selectoutput + NewLine;
    q := CompiledQuery(sb, m.parts);
  }

  // ---------------------------------------------------------------------------
  // Properties of the select line
  // ---------------------------------------------------------------------------

  /** The select line is empty exactly when there is no output suffix part;
      otherwise it starts with "SELECT". */
  lemma {:induction false} SelectOutputEmptyIff(xs: seq<string>)
    ensures SelectOutput(xs) == "" <==> |xs| == 0
    ensures |xs| > 0 ==> |SelectOutput(xs)| >= 6 && SelectOutput(xs)[..6] == "SELECT"
    decreases |xs|
  {
    if |xs| > 0 {
      var prev := SelectOutput(xs[..|xs| - 1]);
      SelectOutputEmptyIff(xs[..|xs| - 1]);
      var head := if prev == "" then "SELECT" else prev;
      assert |head| >= 6 && head[..6] == "SELECT";
      var v := xs[|xs| - 1];
      if v != "" {
        var s := head + " " + (if prev != "" then ", " else "") + v;
        assert s[..6] == head[..6];
      }
    }
  }

  /** The select line given the first output text and the non-empty output
      texts, "SELECT v1 , v2 , v3", with " ," in front of the list when
      the first text is empty and some later one is not. */
  function Listed(first: string, ne: seq<string>): string {
    "SELECT" + (if first == "" && ne != [] then " ," else "") +
    (if ne == [] then "" else " " + Text.Join(ne, " , "))
  }

  /** The select line lists the non-empty output texts in part order; only
      the first part is written without the separator, so an empty first text
      followed by a non-empty one leaves " ," at the front of the list. */
  lemma {:induction false} SelectOutputLists(xs: seq<string>)
    requires |xs| > 0
    ensures var ne := NonEmpty(xs);
            SelectOutput(xs) ==
              "SELECT" + (if xs[0] == "" && ne != [] then " ," else "") +
              (if ne == [] then "" else " " + Text.Join(ne, " , "))
  {
    SelectOutputListed(xs);
  }

  lemma {:induction false} SelectOutputListed(xs: seq<string>)
    requires |xs| > 0
    ensures SelectOutput(xs) == Listed(xs[0], NonEmpty(xs))
    ensures NonEmpty(xs) == [] ==> xs[0] == ""
    decreases |xs|
  {
    var n := |xs| - 1;
    var v := xs[n];
    var pre := xs[..n];
    NonEmptySnoc(pre, v);
    assert pre + [v] == xs;
    if n == 0 {
      assert pre == [];
      SelectOutputFirst(xs);
    } else {
      SelectOutputListed(pre);
      SelectOutputEmptyIff(pre);
      assert pre[0] == xs[0];
      SelectOutputLater(xs);
      ListedSnoc(SelectOutput(pre), xs[0], NonEmpty(pre), v, SelectOutput(xs), NonEmpty(xs));
    }
  }

  /** One output text: "SELECT", then " " and the text if it is not empty. */
  lemma SelectOutputFirst(xs: seq<string>)
    requires |xs| == 1
    ensures SelectOutput(xs) == Listed(xs[0], NonEmpty(xs))
    ensures NonEmpty(xs) == [] ==> xs[0] == ""
  {
    assert xs[..0] == [];
    if xs[0] == "" {
      assert NonEmpty(xs) == [];
    } else {
      assert NonEmpty(xs) == [xs[0]];
      assert Text.Join([xs[0]], " , ") == xs[0];
    }
  }

  /** A later output text is written after " , " if it is not empty. */
  lemma SelectOutputLater(xs: seq<string>)
    requires |xs| > 1 && SelectOutput(xs[..|xs| - 1]) != ""
    ensures var prev := SelectOutput(xs[..|xs| - 1]);
            var v := xs[|xs| - 1];
            SelectOutput(xs) == if v != "" then prev + " " + ", " + v else prev
  {
  }

  /** One more output text, on the reference definition. */
  lemma ListedSnoc(prev: string, first: string, ne: seq<string>, v: string, out: string, ne2: seq<string>)
    requires prev == Listed(first, ne) && (ne == [] ==> first == "")
    requires out == (if v != "" then prev + " " + ", " + v else prev)
    requires ne2 == ne + (if v == "" then [] else [v])
    ensures out == Listed(first, ne2) && (ne2 == [] ==> first == "")
  {
    if v == "" {
      assert ne2 == ne;
    } else if ne == [] {
      ListedOpens(prev, first, v, out, ne2);
    } else {
      ListedAppends(prev, first, ne, v, out, ne2);
    }
  }

  /** The first non-empty text after empty ones opens the list with " ,". */
  lemma ListedOpens(prev: string, first: string, v: string, out: string, ne2: seq<string>)
    requires prev == Listed(first, []) && first == "" && v != ""
    requires out == prev + " " + ", " + v && ne2 == [v]
    ensures out == Listed(first, ne2)
  {
    assert prev == "SELECT";
    assert Text.Join([v], " , ") == v;
    assert "SELECT" + " " + ", " + v == "SELECT" + " ," + (" " + v);
  }

  /** A non-empty text after listed ones is appended after " , ". */
  lemma ListedAppends(prev: string, first: string, ne: seq<string>, v: string, out: string, ne2: seq<string>)
    requires prev == Listed(first, ne) && ne != [] && v != ""
    requires out == prev + " " + ", " + v && ne2 == ne + [v]
    ensures out == Listed(first, ne2)
  {
    JoinSnoc(ne, v, " , ");
    var open := if first == "" then " ," else "";
    var joined := Text.Join(ne, " , ");
    assert prev == "SELECT" + open + (" " + joined);
    assert out == "SELECT" + open + (" " + (joined + " , " + v));
  }

  /** As written, an empty first output text makes the first listed value
      start with ", ". */
  lemma EmptyFirstOutput()
    ensures SelectOutput(["", "@p2"]) == "SELECT , @p2"
  {
    assert ["", "@p2"][..1] == [""];
    assert [""][..0] == [];
  }

  /** With no output suffix parts the query ends with the parameter list and
      two line breaks. */
  lemma NoOutputsEndsWithTwoLineBreaks(m: ProcedureMap, compile: Part -> string)
    requires TaggedParts(m.parts, OutParameterSufix) == []
    ensures QueryText(m, compile) ==
              DeclarationsOf(m.parts, compile)
              + "EXEC " + m.procedureName + " "
              + Text.Join(TextsOf(Parameters(m.parts), compile), ", ") + NewLine + NewLine
  {
    assert TextsOf([], compile) == [];
  }
}
