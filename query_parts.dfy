/** The query-parts tree: tagged parts, decorators owning children, and the
    container of one statement's top-level parts with its positional inserts. */
module QueryParts {
  import Wrappers
  import opened ClrTypes

  type Option<T> = Wrappers.Option<T>

  /** The statement role of a part. */
  datatype OperationType =
    | None
    | Select | SelectMap | From | Join | Where | And | Or | OrderBy | GroupBy | Having
    | Include
    | Insert | Update | Delete | Set
    | CreateTable | Column | TableKeys | IgnoreColumn
    | AlterTable | AlterField | AddColumn | DropColumn | RenameTable | DropTable
    | OutParameterPrefix | OutParameterSufix | Parameter

  /** A field reference (FieldQueryPart). `suffix` is the separator written
      after the field when the select list is compiled. */
  datatype FieldPart = FieldPart(
    op: OperationType,
    id: string,
    field: string,
    alias: Option<string>,
    entity: Option<string>,
    entityAlias: Option<string>,
    suffix: string,
    fieldType: Option<ClrType>,
    converter: Option<ObjectConverter>)

  /** The text a DelegateQueryPart produces, read only when the map is
      compiled. */
  datatype DelegateBody =
    | Literal(text: string)
      /** The column definition closure of the SQLite table builder. */
    | ColumnDefinition(name: string, sqlType: string, isNullable: bool)

  /** A query part. `Fragment` stands for every part whose own Compile is
      outside this model (expression parts, literal value parts, ...);
      `source` tells such parts apart. */
  datatype Part =
    | Fragment(op: OperationType, id: Option<string>, source: string)
    | FieldRef(fp: FieldPart)
    | Delegate(op: OperationType, id: Option<string>, body: DelegateBody)
    | ParameterRef(op: OperationType, name: Option<string>, source: string)
    | Decorator(op: OperationType, id: Option<string>, isSealed: bool, children: seq<Part>)
  {
    function Op(): OperationType {
      match this
      case Fragment(op, _, _) => op
      case FieldRef(fp) => fp.op
      case Delegate(op, _, _) => op
      case ParameterRef(op, _, _) => op
      case Decorator(op, _, _, _) => op
    }

    /** IQueryPart.ID; None stands for a null ID. */
    function Id(): Option<string> {
      match this
      case Fragment(_, id, _) => id
      case FieldRef(fp) => Wrappers.Some(fp.id)
      case Delegate(_, id, _) => id
      case ParameterRef(_, _, _) => Wrappers.None
      case Decorator(_, id, _, _) => id
    }

    /** The test `p is IParameterQueryPart`. */
    predicate IsParameter() {
      ParameterRef?
    }
  }

  /** Whether a part is tagged `op`. */
  predicate Tagged(p: Part, op: OperationType) {
    p.Op() == op
  }

  /** A compiled statement: its text and the map it came from. */
  datatype CompiledQuery = CompiledQuery(queryString: string, queryParts: seq<Part>)

  // ---------------------------------------------------------------------------
  // Positional insertion. The container's implementation is not part of this
  // model, and its placement rules are assumed: AddBefore inserts just before
  // the FIRST part tagged with the anchor (at the start when there is none),
  // AddAfter just after the LAST such part (at the end when there is none).
  // The interface comment on AddBefore speaks of "the last operation"; the
  // first-anchor rule is what gives Create's reverse loop field order.
  // ---------------------------------------------------------------------------

  /** Index of the first part tagged `op`. */
  function FirstTagged(ps: seq<Part>, op: OperationType): (r: Option<nat>)
    ensures r.Some? ==> r.value < |ps| && Tagged(ps[r.value], op)
    ensures r.Some? ==> forall j :: 0 <= j < r.value ==> !Tagged(ps[j], op)
    ensures r.None? ==> forall j :: 0 <= j < |ps| ==> !Tagged(ps[j], op)
  {
    if |ps| == 0 then Wrappers.None
    else if Tagged(ps[0], op) then Wrappers.Some(0)
    else match FirstTagged(ps[1..], op)
      case None => Wrappers.None
      case Some(i) => Wrappers.Some(i + 1)
  }

  /** Index of the last part tagged `op`. */
  function LastTagged(ps: seq<Part>, op: OperationType): (r: Option<nat>)
    ensures r.Some? ==> r.value < |ps| && Tagged(ps[r.value], op)
    ensures r.Some? ==> forall j :: r.value < j < |ps| ==> !Tagged(ps[j], op)
    ensures r.None? ==> forall j :: 0 <= j < |ps| ==> !Tagged(ps[j], op)
  {
    if |ps| == 0 then Wrappers.None
    else if Tagged(ps[|ps| - 1], op) then Wrappers.Some(|ps| - 1)
    else LastTagged(ps[..|ps| - 1], op)
  }

  function InsertAt(ps: seq<Part>, i: nat, p: Part): (r: seq<Part>)
    requires i <= |ps|
    ensures |r| == |ps| + 1 && r[i] == p
    ensures r[..i] == ps[..i] && r[i + 1..] == ps[i..]
  {
    ps[..i] + [p] + ps[i..]
  }

  /** Where AddBefore puts its part. */
  function BeforeIndex(ps: seq<Part>, op: OperationType): (i: nat)
    ensures i <= |ps|
  {
    match FirstTagged(ps, op)
    case None => 0
    case Some(i) => i
  }

  /** Where AddAfter puts its part. */
  function AfterIndex(ps: seq<Part>, op: OperationType): (i: nat)
    ensures i <= |ps|
  {
    match LastTagged(ps, op)
    case None => |ps|
    case Some(i) => i + 1
  }

  function InsertBefore(ps: seq<Part>, p: Part, op: OperationType): seq<Part> {
    InsertAt(ps, BeforeIndex(ps, op), p)
  }

  function InsertAfter(ps: seq<Part>, p: Part, op: OperationType): seq<Part> {
    InsertAt(ps, AfterIndex(ps, op), p)
  }

  /** Removing the part at `i` undoes inserting it there. */
  lemma RemoveUndoesInsert(ps: seq<Part>, i: nat, p: Part)
    requires i <= |ps|
    ensures var r := InsertAt(ps, i, p); r[..i] + r[i + 1..] == ps
  {
  }

  /** AddBefore: the new part stands just before the first part tagged `op`,
      no part before it is tagged `op`, and without such a part it comes first. */
  lemma InsertBeforePlacement(ps: seq<Part>, p: Part, op: OperationType)
    ensures var r := InsertBefore(ps, p, op); var i := BeforeIndex(ps, op);
            r[i] == p && r[..i] + r[i + 1..] == ps &&
            (forall j :: 0 <= j < i ==> !Tagged(r[j], op)) &&
            ((exists j :: 0 <= j < |ps| && Tagged(ps[j], op)) ==> Tagged(r[i + 1], op)) &&
            ((forall j :: 0 <= j < |ps| ==> !Tagged(ps[j], op)) ==> i == 0)
  {
    var i := BeforeIndex(ps, op);
    RemoveUndoesInsert(ps, i, p);
  }

  /** AddAfter: the new part stands just after the last part tagged `op`, no
      part after it is tagged `op`, and without such a part it comes last. */
  lemma InsertAfterPlacement(ps: seq<Part>, p: Part, op: OperationType)
    ensures var r := InsertAfter(ps, p, op); var i := AfterIndex(ps, op);
            r[i] == p && r[..i] + r[i + 1..] == ps &&
            (forall j :: i < j < |r| ==> !Tagged(r[j], op)) &&
            ((exists j :: 0 <= j < |ps| && Tagged(ps[j], op)) ==> Tagged(r[i - 1], op)) &&
            ((forall j :: 0 <= j < |ps| ==> !Tagged(ps[j], op)) ==> i == |ps|)
  {
    var i := AfterIndex(ps, op);
    RemoveUndoesInsert(ps, i, p);
  }

  // ---------------------------------------------------------------------------
  // AddToLast and Remove
  // ---------------------------------------------------------------------------

  /** Index of the last decorator satisfying `accept`. */
  function LastDecorator(ps: seq<Part>, accept: Part -> bool): (r: Option<nat>)
    ensures r.Some? ==> r.value < |ps| && ps[r.value].Decorator? && accept(ps[r.value])
    ensures r.Some? ==> forall j :: r.value < j < |ps| ==> !(ps[j].Decorator? && accept(ps[j]))
    ensures r.None? ==> forall j :: 0 <= j < |ps| ==> !(ps[j].Decorator? && accept(ps[j]))
  {
    if |ps| == 0 then Wrappers.None
    else if ps[|ps| - 1].Decorator? && accept(ps[|ps| - 1]) then Wrappers.Some(|ps| - 1)
    else LastDecorator(ps[..|ps| - 1], accept)
  }

  /** The part appended to the children of the last decorator that `accept`s;
      with no such decorator it is appended at the top level. */
  function AddedToLast(ps: seq<Part>, p: Part, accept: Part -> bool): seq<Part> {
    match LastDecorator(ps, accept)
    case None => ps + [p]
    case Some(i) => ps[i := ps[i].(children := ps[i].children + [p])]
  }

  /** AddToLast changes one decorator, by one trailing child, or appends. */
  lemma AddedToLastShape(ps: seq<Part>, p: Part, accept: Part -> bool)
    ensures var r := AddedToLast(ps, p, accept);
            match LastDecorator(ps, accept)
            case None => r == ps + [p]
            case Some(i) =>
              |r| == |ps| && r[i].children == ps[i].children + [p] &&
              r[i].op == ps[i].op && r[i].isSealed == ps[i].isSealed &&
              forall j :: 0 <= j < |ps| && j != i ==> r[j] == ps[j]
  {
  }

  /** `ps` with every occurrence of `p`, at any depth, removed. */
  function RemovedEverywhere(ps: seq<Part>, p: Part): seq<Part>
    decreases ps
  {
    if |ps| == 0 then []
    else
      var rest := RemovedEverywhere(ps[1..], p);
      if ps[0] == p then rest
      else if ps[0].Decorator? then [ps[0].(children := RemovedEverywhere(ps[0].children, p))] + rest
      else [ps[0]] + rest
  }

  /** Whether `p` occurs in `ps` at any depth. */
  predicate OccursIn(p: Part, ps: seq<Part>)
    decreases ps
  {
    exists i :: 0 <= i < |ps| && (ps[i] == p || (ps[i].Decorator? && OccursIn(p, ps[i].children)))
  }

  lemma OccursInTail(ps: seq<Part>, p: Part)
    requires |ps| > 0
    ensures OccursIn(p, ps[1..]) ==> OccursIn(p, ps)
  {
    if OccursIn(p, ps[1..]) {
      var i :| 0 <= i < |ps[1..]| && (ps[1..][i] == p || (ps[1..][i].Decorator? && OccursIn(p, ps[1..][i].children)));
      assert ps[i + 1] == ps[1..][i];
    }
  }

  /** Removing a part that occurs nowhere changes nothing. */
  lemma {:induction false} RemoveAbsent(ps: seq<Part>, p: Part)
    requires !OccursIn(p, ps)
    ensures RemovedEverywhere(ps, p) == ps
    decreases ps
  {
    if |ps| > 0 {
      OccursInTail(ps, p);
      RemoveAbsent(ps[1..], p);
      if ps[0].Decorator? {
        RemoveAbsent(ps[0].children, p);
      }
    }
  }

  /** Remove undoes Add of a part that occurred nowhere before. */
  lemma {:induction false} RemoveUndoesAdd(ps: seq<Part>, p: Part)
    requires !OccursIn(p, ps)
    ensures RemovedEverywhere(ps + [p], p) == ps
    decreases |ps|
  {
    if |ps| == 0 {
      assert RemovedEverywhere([p], p) == RemovedEverywhere([], p);
    } else {
      assert (ps + [p])[1..] == ps[1..] + [p];
      OccursInTail(ps, p);
      RemoveUndoesAdd(ps[1..], p);
      if ps[0].Decorator? {
        RemoveAbsent(ps[0].children, p);
      }
    }
  }

  // ---------------------------------------------------------------------------
  // The container
  // ---------------------------------------------------------------------------

  /** The parts of one statement under construction (IQueryPartsContainer). */
  class PartsMap {
    var parts: seq<Part>

    constructor ()
      ensures parts == []
    {
      parts := [];
    }

    method Add(p: Part)
      modifies this
      ensures parts == old(parts) + [p]
    {
      parts := parts + [p];
    }

    method AddBefore(p: Part, op: OperationType)
      modifies this
      ensures parts == InsertBefore(old(parts), p, op)
    {
      parts := InsertBefore(parts, p, op);
    }

    method AddAfter(p: Part, op: OperationType)
      modifies this
      ensures parts == InsertAfter(old(parts), p, op)
    {
      parts := InsertAfter(parts, p, op);
    }

    method AddToLast(p: Part, op: OperationType)
      modifies this
      ensures parts == AddedToLast(old(parts), p, (q: Part) => q.Op() == op)
    {
      parts := AddedToLast(parts, p, (q: Part) => q.Op() == op);
    }

    method AddToLastWhere(p: Part, accept: Part -> bool)
      modifies this
      ensures parts == AddedToLast(old(parts), p, accept)
    {
      parts := AddedToLast(parts, p, accept);
    }

    method Remove(p: Part)
      modifies this
      ensures parts == RemovedEverywhere(old(parts), p)
    {
      parts := RemovedEverywhere(parts, p);
    }
  }
}
