/** The SQLite table builder: CREATE TABLE with its column definitions, ADD
    COLUMN and RENAME TO, written as parts into the statement's parts map and
    registered with the database context. */
module DatabaseQueryBuilder {
  import Wrappers
  import opened ClrTypes
  import opened QueryParts
  import TypeDefinitionFactory
  import FieldHelper

  type FieldDefinition = TypeDefinitionFactory.FieldDefinition

  /** The column operation requested; `Other` stands for every member of the
      enumeration besides None and Add. */
  datatype FieldOperation = None | Add | Other

  /** A command the context will execute: the parts of one statement. */
  datatype QueryCommand = MapQueryCommand(parts: seq<Part>)

  /** The statements registered with the database context, in order. */
  class DatabaseContext {
    var queries: seq<QueryCommand>

    constructor ()
      ensures queries == []
    {
      queries := [];
    }

    method AddQuery(command: QueryCommand)
      modifies this
      ensures queries == old(queries) + [command]
    {
      queries := queries + [command];
    }
  }

  const NotSupportedMessage: string := "SQLite only supports ADD column"
  const NoColumnMessage: string := "Sequence contains no matching element"

  // ---------------------------------------------------------------------------
  // The parts the builder writes
  // ---------------------------------------------------------------------------

  /** CreateColumn: a Column part with the column's name as ID whose text is
      computed when the map is compiled. `sqlType` is ToSqlDbType. */
  function ColumnPart(name: string, fieldType: Option<ClrType>, isNullable: bool,
                      sqlType: Option<ClrType> -> string): (r: Part)
    ensures r.Op() == Column && r.Id() == Wrappers.Some(name)
  {
    Delegate(Column, Wrappers.Some(name), ColumnDefinition(name, sqlType(fieldType), isNullable))
  }

  /** The column part CreateColumn makes for a field definition. */
  function FieldColumn(f: FieldDefinition, sqlType: Option<ClrType> -> string): Part {
    ColumnPart(f.memberName, Wrappers.Some(f.memberType), f.isNullable, sqlType)
  }

  function CreatePart(tableName: string): Part {
    Delegate(CreateTable, Wrappers.None, Literal("CREATE TABLE IF NOT EXISTS " + tableName + " ("))
  }

  const ClosePart: Part := Delegate(OperationType.None, Wrappers.None, Literal(")"))

  function RenamePart(tableName: string, newName: string): Part {
    Delegate(RenameTable, Wrappers.None, Literal("ALTER TABLE " + tableName + " RENAME TO " + newName))
  }

  /** " NOT NULL" for a column that does not accept null. */
  function NotNull(isNullable: bool): string {
    if isNullable then "" else " NOT NULL"
  }

  /** The ADD COLUMN text for a field of the entity: nullability as given,
      else as the field definition says. */
  function AddColumnForField(f: FieldDefinition, isNullable: Option<bool>,
                             sqlType: Option<ClrType> -> string): string
  {
    var nullable := if isNullable.Some? then (if isNullable.value then "" else " NOT NULL")
                    else if f.isNullable then "" else " NOT NULL";
    "ADD COLUMN " + f.memberName + " " + sqlType(Wrappers.Some(f.memberType)) + nullable
  }

  /** The ADD COLUMN text for a column given by name: " NOT NULL" only when
      nullability is given as false. */
  function AddColumnByName(column: string, fieldType: ClrType, isNullable: Option<bool>,
                           sqlType: Option<ClrType> -> string): string
  {
    "ADD COLUMN " + column + " " + sqlType(Wrappers.Some(fieldType))
    + (if isNullable.Some? && !isNullable.value then " NOT NULL" else "")
  }

  /** Both ADD COLUMN forms write " NOT NULL" exactly when the effective
      nullability is false; the effective nullability is the one given, else
      the field's for the entity form and nullable for the by-name form. */
  lemma AddColumnNullability(f: FieldDefinition, column: string, fieldType: ClrType,
                             isNullable: Option<bool>, sqlType: Option<ClrType> -> string)
    ensures AddColumnForField(f, isNullable, sqlType) ==
              "ADD COLUMN " + f.memberName + " " + sqlType(Wrappers.Some(f.memberType)) +
              NotNull(if isNullable.Some? then isNullable.value else f.isNullable)
    ensures AddColumnByName(column, fieldType, isNullable, sqlType) ==
              "ADD COLUMN " + column + " " + sqlType(Wrappers.Some(fieldType)) +
              NotNull(if isNullable.Some? then isNullable.value else true)
    ensures isNullable.Some? ==>
              AddColumnByName(f.memberName, f.memberType, isNullable, sqlType) ==
              AddColumnForField(f, isNullable, sqlType)
  {
  }

  // ---------------------------------------------------------------------------
  // Rendering when the map is compiled
  // ---------------------------------------------------------------------------

  predicate ColumnOrKey(p: Part) {
    p.Op() == Column || p.Op() == TableKeys
  }

  /** Index of the last Column or TableKeys part. */
  function LastColumnOrKey(ps: seq<Part>): (r: Option<nat>)
    ensures r.Some? ==> r.value < |ps| && ColumnOrKey(ps[r.value])
  {
    if |ps| == 0 then Wrappers.None
    else if ColumnOrKey(ps[|ps| - 1]) then Wrappers.Some(|ps| - 1)
    else LastColumnOrKey(ps[..|ps| - 1])
  }

  /** No Column or TableKeys part follows the one found, and none is in the
      map when none is found. */
  lemma {:induction false} LastColumnOrKeyIsLast(ps: seq<Part>)
    ensures var r := LastColumnOrKey(ps);
            (r.Some? ==> forall j :: r.value < j < |ps| ==> !ColumnOrKey(ps[j])) &&
            (r.None? ==> forall j :: 0 <= j < |ps| ==> !ColumnOrKey(ps[j]))
    decreases |ps|
  {
    if |ps| > 0 && !ColumnOrKey(ps[|ps| - 1]) {
      var init := ps[..|ps| - 1];
      LastColumnOrKeyIsLast(init);
      assert forall j :: 0 <= j < |init| ==> init[j] == ps[j];
    }
  }

  /** The text of a delegate part, computed against the map `ps` as it is at
      compile time. A column definition is "name type[ NOT NULL]" followed by
      ", " unless the last Column or TableKeys part has the column's name as
      ID; with no such part Enumerable.Last throws. */
  function Render(p: Part, ps: seq<Part>): (r: Wrappers.Result<string>)
    requires p.Delegate?
    ensures p.body.Literal? ==> r == Wrappers.Success(p.body.text)
    ensures p.body.ColumnDefinition? && r.Failure? ==> r.error == Wrappers.InvalidOperation(NoColumnMessage)
  {
    match p.body
    case Literal(text) => Wrappers.Success(text)
    case ColumnDefinition(name, sqlType, isNullable) =>
      var last := LastColumnOrKey(ps);
      if last.None? then Wrappers.Failure(Wrappers.InvalidOperation(NoColumnMessage))
      else
        Wrappers.Success(name + " " + sqlType + NotNull(isNullable) +
                         (if ps[last.value].Id() == Wrappers.Some(name) then "" else ", "))
  }

  /** A column definition fails to render exactly when the map has no Column
      or TableKeys part. */
  lemma RenderFails(p: Part, ps: seq<Part>)
    requires p.Delegate? && p.body.ColumnDefinition?
    ensures Render(p, ps).Failure? <==> forall j :: 0 <= j < |ps| ==> !ColumnOrKey(ps[j])
  {
    LastColumnOrKeyIsLast(ps);
  }

  // ---------------------------------------------------------------------------
  // The reference definition of Create
  // ---------------------------------------------------------------------------

  /** A Column or IgnoreColumn part with ID `name` is in the map. */
  predicate Present(ps: seq<Part>, name: string) {
    exists j :: 0 <= j < |ps| && (ps[j].Op() == Column || ps[j].Op() == IgnoreColumn) &&
                ps[j].Id() == Wrappers.Some(name)
  }

  predicate AnyColumn(ps: seq<Part>) {
    exists j :: 0 <= j < |ps| && ps[j].Op() == Column
  }

  /** One turn of Create's loop: skip a field the map already has a column or
      an ignore marker for; otherwise insert its column before the first
      column, or after the create part when there is no column yet. */
  function CreateStep(ps: seq<Part>, f: FieldDefinition, sqlType: Option<ClrType> -> string): seq<Part> {
    if Present(ps, f.memberName) then ps
    else if AnyColumn(ps) then InsertBefore(ps, FieldColumn(f, sqlType), Column)
    else InsertAfter(ps, FieldColumn(f, sqlType), CreateTable)
  }

  /** Create's loop, which takes the fields from the last to the first. */
  function CreatedColumns(ps: seq<Part>, fs: seq<FieldDefinition>, sqlType: Option<ClrType> -> string): seq<Part>
    decreases |fs|
  {
    if |fs| == 0 then ps
    else CreatedColumns(CreateStep(ps, fs[|fs| - 1], sqlType), fs[..|fs| - 1], sqlType)
  }

  /** The parts after Create. */
  function CreatedParts(ps: seq<Part>, tableName: string, fields: seq<FieldDefinition>,
                        sqlType: Option<ClrType> -> string): seq<Part>
  {
    CreatedColumns(InsertBefore(ps, CreatePart(tableName), OperationType.None), fields, sqlType) + [ClosePart]
  }

  // ---------------------------------------------------------------------------
  // What Create makes of a map: the layout of the columns
  // ---------------------------------------------------------------------------

  /** The column parts of `fs`, in order. */
  function Columns(fs: seq<FieldDefinition>, sqlType: Option<ClrType> -> string): (r: seq<Part>)
    ensures |r| == |fs|
    ensures forall k :: 0 <= k < |fs| ==> r[k] == FieldColumn(fs[k], sqlType)
  {
    seq(|fs|, k requires 0 <= k < |fs| => FieldColumn(fs[k], sqlType))
  }

  /** The fields of `fs` the map `ps` has no column or ignore marker for, in
      order. */
  function Admitted(ps: seq<Part>, fs: seq<FieldDefinition>): (r: seq<FieldDefinition>)
    ensures |r| <= |fs|
    ensures forall k :: 0 <= k < |r| ==> r[k] in fs
    decreases |fs|
  {
    if |fs| == 0 then []
    else Admitted(ps, fs[..|fs| - 1]) +
         (if Present(ps, fs[|fs| - 1].memberName) then [] else [fs[|fs| - 1]])
  }

  /** Only fields the map has no marker for are admitted. */
  lemma {:induction false} AdmittedSound(ps: seq<Part>, fs: seq<FieldDefinition>, f: FieldDefinition)
    requires f in Admitted(ps, fs)
    ensures f in fs && !Present(ps, f.memberName)
    decreases |fs|
  {
    var n := |fs| - 1;
    AdmittedSnoc(ps, fs);
    if f in Admitted(ps, fs[..n]) {
      AdmittedSound(ps, fs[..n], f);
      assert fs[..n] <= fs;
    } else {
      assert f == fs[n];
    }
  }

  /** Every field the map has no marker for is admitted. */
  lemma {:induction false} AdmittedComplete(ps: seq<Part>, fs: seq<FieldDefinition>, f: FieldDefinition)
    requires f in fs && !Present(ps, f.memberName)
    ensures f in Admitted(ps, fs)
    decreases |fs|
  {
    var n := |fs| - 1;
    if f != fs[n] {
      assert fs == fs[..n] + [fs[n]];
      assert f in fs[..n];
      AdmittedComplete(ps, fs[..n], f);
    }
  }

  predicate DistinctNames(fs: seq<FieldDefinition>) {
    forall i, j :: 0 <= i < j < |fs| ==> fs[i].memberName != fs[j].memberName
  }

  /** No name of `fs` is a name of `gs`. */
  predicate Disjoint(fs: seq<FieldDefinition>, gs: seq<FieldDefinition>) {
    forall i, j :: 0 <= i < |fs| && 0 <= j < |gs| ==> fs[i].memberName != gs[j].memberName
  }

  /** Where one turn of Create's loop puts a column into `ps`: before the
      first Column part, or, with none yet, after the last create part (at the
      end when there is none). */
  function ColumnSlot(ps: seq<Part>): (i: nat)
    ensures i <= |ps|
  {
    if AnyColumn(ps) then BeforeIndex(ps, Column) else AfterIndex(ps, CreateTable)
  }

  /** The slot is the first Column part of the map when it has one, and just
      after its last create part otherwise. */
  lemma ColumnSlotPlacement(ps: seq<Part>)
    ensures var i := ColumnSlot(ps);
            (AnyColumn(ps) ==> i < |ps| && Tagged(ps[i], Column) &&
                               forall j :: 0 <= j < i ==> !Tagged(ps[j], Column)) &&
            (!AnyColumn(ps) && LastTagged(ps, CreateTable).Some? ==>
                               0 < i && Tagged(ps[i - 1], CreateTable) &&
                               forall j :: i <= j < |ps| ==> !Tagged(ps[j], CreateTable)) &&
            (!AnyColumn(ps) && LastTagged(ps, CreateTable).None? ==> i == |ps|)
  {
    if AnyColumn(ps) {
      var j :| 0 <= j < |ps| && ps[j].Op() == Column;
      assert Tagged(ps[j], Column);
      assert FirstTagged(ps, Column).Some?;
    }
  }

  /** The map `ps` with the columns of `rest` at index `i`. */
  function Layout(ps: seq<Part>, i: nat, rest: seq<FieldDefinition>, sqlType: Option<ClrType> -> string): (r: seq<Part>)
    requires i <= |ps|
    ensures |r| == |ps| + |rest|
  {
    ps[..i] + Columns(rest, sqlType) + ps[i..]
  }

  lemma LayoutAt(ps: seq<Part>, i: nat, rest: seq<FieldDefinition>, sqlType: Option<ClrType> -> string)
    requires i <= |ps|
    ensures var l := Layout(ps, i, rest, sqlType);
            (forall k :: 0 <= k < i ==> l[k] == ps[k]) &&
            (forall k :: 0 <= k < |rest| ==> l[i + k] == FieldColumn(rest[k], sqlType)) &&
            (forall k :: i <= k < |ps| ==> l[k + |rest|] == ps[k])
  {
    var l := Layout(ps, i, rest, sqlType);
    var a, b, d := ps[..i], Columns(rest, sqlType), ps[i..];
    assert l == a + b + d;
    forall k | 0 <= k < i
      ensures l[k] == ps[k]
    {
      assert l[k] == a[k];
    }
    forall k | 0 <= k < |rest|
      ensures l[i + k] == FieldColumn(rest[k], sqlType)
    {
      assert l[i + k] == b[k];
    }
    forall k | i <= k < |ps|
      ensures l[k + |rest|] == ps[k]
    {
      assert l[k + |rest|] == d[k - i];
    }
  }

  /** On a layout, a field is present exactly when the original map has a
      marker for it, as long as its name is none of the laid-out columns'. */
  lemma LayoutPresent(ps: seq<Part>, i: nat, rest: seq<FieldDefinition>, f: FieldDefinition,
                      sqlType: Option<ClrType> -> string)
    requires i <= |ps|
    requires forall k :: 0 <= k < |rest| ==> rest[k].memberName != f.memberName
    ensures Present(Layout(ps, i, rest, sqlType), f.memberName) <==> Present(ps, f.memberName)
  {
    var l := Layout(ps, i, rest, sqlType);
    var n := f.memberName;
    LayoutAt(ps, i, rest, sqlType);
    if Present(ps, n) {
      var j :| 0 <= j < |ps| && (ps[j].Op() == Column || ps[j].Op() == IgnoreColumn) && ps[j].Id() == Wrappers.Some(n);
      var j' := if j < i then j else j + |rest|;
      assert l[j'] == ps[j];
    }
    if Present(l, n) {
      var j :| 0 <= j < |l| && (l[j].Op() == Column || l[j].Op() == IgnoreColumn) && l[j].Id() == Wrappers.Some(n);
      if j < i {
        assert ps[j] == l[j];
      } else if j < i + |rest| {
        assert false;
      } else {
        assert ps[j - |rest|] == l[j];
      }
    }
  }

  /** Columns laid out at the slot leave the slot where it was. */
  lemma LayoutSlot(ps: seq<Part>, rest: seq<FieldDefinition>, sqlType: Option<ClrType> -> string)
    ensures var i := ColumnSlot(ps); ColumnSlot(Layout(ps, i, rest, sqlType)) == i
  {
    var i := ColumnSlot(ps);
    var l := Layout(ps, i, rest, sqlType);
    if |rest| == 0 {
      assert l == ps;
    } else {
      LayoutAt(ps, i, rest, sqlType);
      ColumnSlotPlacement(ps);
      assert l[i] == FieldColumn(rest[0], sqlType);
      assert Tagged(l[i], Column);
      forall j | 0 <= j < i
        ensures !Tagged(l[j], Column)
      {
        assert l[j] == ps[j];
        if !AnyColumn(ps) {
          assert ps[j].Op() != Column;
        }
      }
      assert AnyColumn(l) by {
        assert l[i].Op() == Column;
      }
      var first := FirstTagged(l, Column);
      assert first == Wrappers.Some(i);
    }
  }

  /** Inserting a field's column at the layout's index lays it out first. */
  lemma LayoutPrepend(ps: seq<Part>, i: nat, rest: seq<FieldDefinition>, f: FieldDefinition,
                      sqlType: Option<ClrType> -> string)
    requires i <= |ps|
    ensures InsertAt(Layout(ps, i, rest, sqlType), i, FieldColumn(f, sqlType)) ==
              Layout(ps, i, [f] + rest, sqlType)
  {
    assert Columns([f] + rest, sqlType) == [FieldColumn(f, sqlType)] + Columns(rest, sqlType);
    var l := Layout(ps, i, rest, sqlType);
    assert l[..i] == ps[..i];
    assert l[i..] == Columns(rest, sqlType) + ps[i..];
  }

  /** One turn of Create's loop on a layout at the slot: the field's column
      goes in front of the columns laid out so far, unless the map has a
      marker for it. */
  lemma StepOnLayout(ps: seq<Part>, rest: seq<FieldDefinition>, f: FieldDefinition,
                     sqlType: Option<ClrType> -> string)
    requires forall k :: 0 <= k < |rest| ==> rest[k].memberName != f.memberName
    ensures var i := ColumnSlot(ps);
            CreateStep(Layout(ps, i, rest, sqlType), f, sqlType) ==
              if Present(ps, f.memberName) then Layout(ps, i, rest, sqlType)
              else Layout(ps, i, [f] + rest, sqlType)
  {
    var i := ColumnSlot(ps);
    LayoutPresent(ps, i, rest, f, sqlType);
    if !Present(ps, f.memberName) {
      LayoutSlot(ps, rest, sqlType);
      LayoutPrepend(ps, i, rest, f, sqlType);
    }
  }

  /** The names still to be laid out stay clear of those laid out. */
  lemma DisjointInit(fs: seq<FieldDefinition>, rest: seq<FieldDefinition>, grow: bool)
    requires |fs| > 0 && DistinctNames(fs) && Disjoint(fs, rest)
    ensures var rest' := if grow then [fs[|fs| - 1]] + rest else rest;
            DistinctNames(fs[..|fs| - 1]) && Disjoint(fs[..|fs| - 1], rest')
  {
    var n := |fs| - 1;
    var rest' := if grow then [fs[n]] + rest else rest;
    forall i, j | 0 <= i < n && 0 <= j < |rest'|
      ensures fs[..n][i].memberName != rest'[j].memberName
    {
      if grow && j == 0 {
        assert rest'[j] == fs[n];
      } else {
        assert rest'[j] == rest[if grow then j - 1 else j];
      }
    }
  }

  lemma AdmittedSnoc(ps: seq<Part>, fs: seq<FieldDefinition>)
    requires |fs| > 0
    ensures Admitted(ps, fs) ==
              if Present(ps, fs[|fs| - 1].memberName) then Admitted(ps, fs[..|fs| - 1])
              else Admitted(ps, fs[..|fs| - 1]) + [fs[|fs| - 1]]
  {
    if Present(ps, fs[|fs| - 1].memberName) {
      assert Admitted(ps, fs[..|fs| - 1]) + [] == Admitted(ps, fs[..|fs| - 1]);
    }
  }

  lemma Shift(a: seq<FieldDefinition>, f: FieldDefinition, rest: seq<FieldDefinition>, skip: bool)
    ensures (if skip then a else a + [f]) + rest == a + (if skip then rest else [f] + rest)
  {
  }

  /** Create's loop on a layout at the slot lays out the admitted fields in
      their own order, in front of the columns already there. This is where
      taking the fields in reverse and inserting each before the first Column
      part gives field order. */
  lemma {:induction false} ColumnsOnLayout(ps: seq<Part>, fs: seq<FieldDefinition>,
                                           rest: seq<FieldDefinition>, sqlType: Option<ClrType> -> string)
    requires DistinctNames(fs) && Disjoint(fs, rest)
    ensures var i := ColumnSlot(ps);
            CreatedColumns(Layout(ps, i, rest, sqlType), fs, sqlType) ==
              Layout(ps, i, Admitted(ps, fs) + rest, sqlType)
    decreases |fs|
  {
    var i := ColumnSlot(ps);
    if |fs| == 0 {
      assert Admitted(ps, fs) + rest == rest;
    } else {
      var n := |fs| - 1;
      var f := fs[n];
      var init := fs[..n];
      var present := Present(ps, f.memberName);
      var rest' := if present then rest else [f] + rest;
      assert forall k :: 0 <= k < |rest| ==> rest[k].memberName != f.memberName;
      StepOnLayout(ps, rest, f, sqlType);
      assert CreatedColumns(Layout(ps, i, rest, sqlType), fs, sqlType) ==
             CreatedColumns(Layout(ps, i, rest', sqlType), init, sqlType);
      DisjointInit(fs, rest, !present);
      ColumnsOnLayout(ps, init, rest', sqlType);
      AdmittedSnoc(ps, fs);
      Shift(Admitted(ps, init), f, rest, present);
    }
  }

  /** Inserting a part that is neither a column nor an ignore marker changes
      no field's presence. */
  lemma PresentInsert(ps: seq<Part>, i: nat, p: Part, n: string)
    requires i <= |ps| && p.Op() != Column && p.Op() != IgnoreColumn
    ensures Present(InsertAt(ps, i, p), n) <==> Present(ps, n)
  {
    var ps1 := InsertAt(ps, i, p);
    assert forall j :: i < j < |ps1| ==> ps1[j] == ps[j - 1];
    assert forall j :: 0 <= j < i ==> ps1[j] == ps[j];
    if Present(ps, n) {
      var j :| 0 <= j < |ps| && (ps[j].Op() == Column || ps[j].Op() == IgnoreColumn) && ps[j].Id() == Wrappers.Some(n);
      assert ps1[if j < i then j else j + 1] == ps[j];
    }
    if Present(ps1, n) {
      var j :| 0 <= j < |ps1| && (ps1[j].Op() == Column || ps1[j].Op() == IgnoreColumn) && ps1[j].Id() == Wrappers.Some(n);
      assert j != i;
      assert ps[if j < i then j else j - 1] == ps1[j];
    }
  }

  /** A tagged part with no tagged part after it is the last one. */
  lemma LastTaggedAt(ps: seq<Part>, c: nat, op: OperationType)
    requires c < |ps| && Tagged(ps[c], op)
    requires forall j :: c < j < |ps| ==> !Tagged(ps[j], op)
    ensures LastTagged(ps, op) == Wrappers.Some(c)
  {
    var r := LastTagged(ps, op);
    assert r.Some?;
    assert r.value >= c;
  }

  /** Create on any map: the create part goes where AddBefore(None) puts it;
      the columns of the fields the map has no Column or IgnoreColumn part
      for follow in the fields' order, at the column slot of that map (just
      before its first Column part, else just after its last create part);
      the closing bracket comes last. */
  lemma CreateLayout(ps: seq<Part>, tableName: string, fields: seq<FieldDefinition>,
                     sqlType: Option<ClrType> -> string)
    requires DistinctNames(fields)
    ensures var ps1 := InsertBefore(ps, CreatePart(tableName), OperationType.None);
            var i := ColumnSlot(ps1);
            CreatedParts(ps, tableName, fields, sqlType) ==
              ps1[..i] + Columns(Admitted(ps, fields), sqlType) + ps1[i..] + [ClosePart]
  {
    var ps1 := InsertBefore(ps, CreatePart(tableName), OperationType.None);
    var i := ColumnSlot(ps1);
    var cols := Admitted(ps, fields);
    CreatePartAdmitsSame(ps, tableName, fields);
    LayoutNothing(ps1, i, sqlType);
    ColumnsOnLayout(ps1, fields, [], sqlType);
    AppendNothing(cols);
    assert CreatedColumns(ps1, fields, sqlType) == Layout(ps1, i, cols, sqlType);
  }

  lemma LayoutNothing(ps: seq<Part>, i: nat, sqlType: Option<ClrType> -> string)
    requires i <= |ps|
    ensures Layout(ps, i, [], sqlType) == ps
  {
    assert Columns([], sqlType) == [];
    assert ps[..i] + ps[i..] == ps;
  }

  lemma AppendNothing(fs: seq<FieldDefinition>)
    ensures fs + [] == fs
  {
  }

  /** The create part changes no field's admission. */
  lemma CreatePartAdmitsSame(ps: seq<Part>, tableName: string, fields: seq<FieldDefinition>)
    ensures Admitted(InsertBefore(ps, CreatePart(tableName), OperationType.None), fields) == Admitted(ps, fields)
  {
    var c := BeforeIndex(ps, OperationType.None);
    var cp := CreatePart(tableName);
    var ps1 := InsertBefore(ps, cp, OperationType.None);
    assert ps1 == InsertAt(ps, c, cp);
    forall n
      ensures Present(ps1, n) <==> Present(ps, n)
    {
      PresentInsert(ps, c, cp, n);
    }
    AdmittedSame(ps, ps1, fields);
  }

  /** Create on a map without column or create parts: the create part, then
      the admitted columns in field order, right where AddBefore(None) puts
      the create part. */
  lemma CreateOnPlainMap(ps: seq<Part>, tableName: string, fields: seq<FieldDefinition>,
                         sqlType: Option<ClrType> -> string)
    requires forall j :: 0 <= j < |ps| ==> ps[j].Op() != Column && ps[j].Op() != CreateTable
    requires DistinctNames(fields)
    ensures var c := BeforeIndex(ps, OperationType.None);
            CreatedParts(ps, tableName, fields, sqlType) ==
              ps[..c] + [CreatePart(tableName)] + Columns(Admitted(ps, fields), sqlType) + ps[c..] + [ClosePart]
  {
    var c := BeforeIndex(ps, OperationType.None);
    var cp := CreatePart(tableName);
    var ps1 := InsertBefore(ps, cp, OperationType.None);
    assert ps1 == InsertAt(ps, c, cp);
    forall j | 0 <= j < |ps1|
      ensures ps1[j].Op() != Column
      ensures c < j ==> !Tagged(ps1[j], CreateTable)
    {
      if j < c {
        assert ps1[j] == ps1[..c][j] == ps[j];
      } else if c < j {
        assert ps1[j] == ps1[c + 1..][j - c - 1] == ps[j - 1];
      }
    }
    LastTaggedAt(ps1, c, CreateTable);
    assert ColumnSlot(ps1) == c + 1;
    assert ps1[..c + 1] == ps1[..c] + [cp];
    CreateLayout(ps, tableName, fields, sqlType);
  }

  /** Adding a part that is neither a column nor an ignore marker changes no
      field's admission. */
  lemma {:induction false} AdmittedSame(ps: seq<Part>, qs: seq<Part>, fs: seq<FieldDefinition>)
    requires forall n :: Present(ps, n) <==> Present(qs, n)
    ensures Admitted(ps, fs) == Admitted(qs, fs)
    decreases |fs|
  {
    if |fs| > 0 {
      AdmittedSame(ps, qs, fs[..|fs| - 1]);
    }
  }

  /** The admitted fields keep distinct names. */
  lemma {:induction false} AdmittedDistinct(ps: seq<Part>, fs: seq<FieldDefinition>)
    requires DistinctNames(fs)
    ensures DistinctNames(Admitted(ps, fs))
    decreases |fs|
  {
    if |fs| > 0 {
      var n := |fs| - 1;
      var init := fs[..n];
      assert DistinctNames(init);
      AdmittedDistinct(ps, init);
      AdmittedSnoc(ps, fs);
      var a := Admitted(ps, init);
      if !Present(ps, fs[n].memberName) {
        forall k | 0 <= k < |a|
          ensures a[k].memberName != fs[n].memberName
        {
          assert a[k] in init;
          var i :| 0 <= i < n && init[i] == a[k];
          assert fs[i] == a[k];
        }
        DistinctSnoc(a, fs[n]);
      }
    }
  }

  /** A field whose name none of `fs` has keeps the names distinct. */
  lemma DistinctSnoc(fs: seq<FieldDefinition>, f: FieldDefinition)
    requires DistinctNames(fs)
    requires forall k :: 0 <= k < |fs| ==> fs[k].memberName != f.memberName
    ensures DistinctNames(fs + [f])
  {
    var r := fs + [f];
    forall i, j | 0 <= i < j < |r|
      ensures r[i].memberName != r[j].memberName
    {
      assert r[i] == fs[i];
      if j < |fs| {
        assert r[j] == fs[j];
      }
    }
  }

  /** A column definition against a map whose last Column or TableKeys part
      is at `last`: "name type[ NOT NULL]", then ", " unless that part has the
      column's name as ID. */
  lemma RenderColumn(p: Part, ps: seq<Part>, last: nat)
    requires p.Delegate? && p.body.ColumnDefinition?
    requires last < |ps| && ColumnOrKey(ps[last])
    requires forall j :: last < j < |ps| ==> !ColumnOrKey(ps[j])
    ensures Render(p, ps) ==
              Wrappers.Success(p.body.name + " " + p.body.sqlType + NotNull(p.body.isNullable) +
                               (if ps[last].Id() == Wrappers.Some(p.body.name) then "" else ", "))
  {
    LastColumnOrKeyIsLast(ps);
    var r := LastColumnOrKey(ps);
    assert r.Some? && r.value <= last;
  }

  /** A Column or TableKeys part with none after it is the last one. */
  lemma LastColumnOrKeyAt(ps: seq<Part>, x: nat)
    requires x < |ps| && ColumnOrKey(ps[x])
    requires forall j :: x < j < |ps| ==> !ColumnOrKey(ps[j])
    ensures LastColumnOrKey(ps) == Wrappers.Some(x)
  {
    LastColumnOrKeyIsLast(ps);
    var r := LastColumnOrKey(ps);
    assert r.Some?;
    assert r.value >= x;
  }

  /** A column's definition before its separator: "name type[ NOT NULL]". */
  function ColumnBody(f: FieldDefinition, sqlType: Option<ClrType> -> string): string {
    f.memberName + " " + sqlType(Wrappers.Some(f.memberType)) + NotNull(f.isNullable)
  }

  /** The last Column or TableKeys part of `ps`, when it stands at index `i`
      or later. */
  function ClosingColumnOrKey(ps: seq<Part>, i: nat): Option<Part> {
    var last := LastColumnOrKey(ps);
    if last.Some? && i <= last.value then Wrappers.Some(ps[last.value]) else Wrappers.None
  }

  /** Whether the column of `cols[k]`, laid out at `i` in `ps`, is followed
      by ", " once compiled. When a Column or TableKeys part of the map
      follows the slot, the comma is left out only for the column named by the
      last such part's ID; otherwise only the last column laid out has none. */
  function CommaAfter(ps: seq<Part>, i: nat, cols: seq<FieldDefinition>, k: nat): bool
    requires k < |cols|
  {
    match ClosingColumnOrKey(ps, i)
    case None => k != |cols| - 1
    case Some(q) => q.Id() != Wrappers.Some(cols[k].memberName)
  }

  /** No Column or TableKeys part of the map from `from` on gives none in the
      layout from `from + |cols|` on, the closing bracket included. */
  lemma LayoutTailFree(ps: seq<Part>, i: nat, cols: seq<FieldDefinition>, from: nat,
                       sqlType: Option<ClrType> -> string)
    requires i <= from <= |ps|
    requires forall j :: from <= j < |ps| ==> !ColumnOrKey(ps[j])
    ensures var st := Layout(ps, i, cols, sqlType) + [ClosePart];
            forall y :: from + |cols| <= y < |st| ==> !ColumnOrKey(st[y])
  {
    var l := Layout(ps, i, cols, sqlType);
    var st := l + [ClosePart];
    LayoutAt(ps, i, cols, sqlType);
    forall y | from + |cols| <= y < |st|
      ensures !ColumnOrKey(st[y])
    {
      if y < |l| {
        assert st[y] == l[(y - |cols|) + |cols|] == ps[y - |cols|];
      } else {
        assert st[y] == ClosePart;
      }
    }
  }

  /** The last Column or TableKeys part of a layout closed by the bracket:
      the map's own when it follows the slot, else the last column laid out. */
  lemma LayoutLastColumnOrKey(ps: seq<Part>, i: nat, cols: seq<FieldDefinition>, sqlType: Option<ClrType> -> string)
    returns (last: nat)
    requires i <= |ps| && (|cols| > 0 || ClosingColumnOrKey(ps, i).Some?)
    ensures var st := Layout(ps, i, cols, sqlType) + [ClosePart];
            last < |st| && LastColumnOrKey(st) == Wrappers.Some(last) &&
            st[last].Id() == (if ClosingColumnOrKey(ps, i).Some? then ClosingColumnOrKey(ps, i).value.Id()
                              else Wrappers.Some(cols[|cols| - 1].memberName))
  {
    var m := |cols|;
    var l := Layout(ps, i, cols, sqlType);
    var st := l + [ClosePart];
    LayoutAt(ps, i, cols, sqlType);
    LastColumnOrKeyIsLast(ps);
    var closing := ClosingColumnOrKey(ps, i);
    if closing.Some? {
      var j := LastColumnOrKey(ps).value;
      last := j + m;
      assert st[last] == l[j + m] == ps[j];
      LayoutTailFree(ps, i, cols, j + 1, sqlType);
    } else {
      last := i + m - 1;
      assert st[last] == l[i + (m - 1)] == FieldColumn(cols[m - 1], sqlType);
      LayoutTailFree(ps, i, cols, i, sqlType);
    }
    LastColumnOrKeyAt(st, last);
  }

  /** The columns of `cols` stand at `i` in `st`, and each compiles against
      `st` to its body and the separator CommaAfter decides against `ps`. */
  predicate ColumnsRender(st: seq<Part>, ps: seq<Part>, i: nat, cols: seq<FieldDefinition>,
                          sqlType: Option<ClrType> -> string)
  {
    i + |cols| <= |st| &&
    forall k :: 0 <= k < |cols| ==>
      st[i + k] == FieldColumn(cols[k], sqlType) &&
      Render(st[i + k], st) ==
        Wrappers.Success(ColumnBody(cols[k], sqlType) + (if CommaAfter(ps, i, cols, k) then ", " else ""))
  }

  /** The column of a field against a map whose last Column or TableKeys
      part is at `last`. */
  lemma RenderFieldColumn(f: FieldDefinition, ps: seq<Part>, last: nat, sqlType: Option<ClrType> -> string)
    requires LastColumnOrKey(ps) == Wrappers.Some(last)
    ensures Render(FieldColumn(f, sqlType), ps) ==
              Wrappers.Success(ColumnBody(f, sqlType) + (if ps[last].Id() == Wrappers.Some(f.memberName) then "" else ", "))
  {
  }

  /** Column `k` of a layout at `i` stands at `i + k`. */
  lemma LayoutColumnAt(ps: seq<Part>, i: nat, cols: seq<FieldDefinition>, k: nat, sqlType: Option<ClrType> -> string)
    requires i <= |ps| && k < |cols|
    ensures (Layout(ps, i, cols, sqlType) + [ClosePart])[i + k] == FieldColumn(cols[k], sqlType)
  {
    var l := Layout(ps, i, cols, sqlType);
    assert l == ps[..i] + Columns(cols, sqlType) + ps[i..];
    assert (l + [ClosePart])[i + k] == l[i + k] == Columns(cols, sqlType)[k];
  }

  /** One column laid out at `i`, compiled against the final map. */
  lemma LayoutRendersColumn(ps: seq<Part>, i: nat, cols: seq<FieldDefinition>, k: nat, last: nat,
                            sqlType: Option<ClrType> -> string)
    requires i <= |ps| && DistinctNames(cols) && k < |cols|
    requires var st := Layout(ps, i, cols, sqlType) + [ClosePart];
             last < |st| && LastColumnOrKey(st) == Wrappers.Some(last) &&
             st[last].Id() == (if ClosingColumnOrKey(ps, i).Some? then ClosingColumnOrKey(ps, i).value.Id()
                               else Wrappers.Some(cols[|cols| - 1].memberName))
    ensures var st := Layout(ps, i, cols, sqlType) + [ClosePart];
            st[i + k] == FieldColumn(cols[k], sqlType) &&
            Render(st[i + k], st) ==
              Wrappers.Success(ColumnBody(cols[k], sqlType) + (if CommaAfter(ps, i, cols, k) then ", " else ""))
  {
    var st := Layout(ps, i, cols, sqlType) + [ClosePart];
    LayoutColumnAt(ps, i, cols, k, sqlType);
    RenderFieldColumn(cols[k], st, last, sqlType);
    var named := st[last].Id() == Wrappers.Some(cols[k].memberName);
    assert named <==> !CommaAfter(ps, i, cols, k) by {
      if ClosingColumnOrKey(ps, i).None? {
        assert cols[|cols| - 1].memberName == cols[k].memberName <==> k == |cols| - 1;
      }
    }
  }

  /** Compiled against the final map, columns laid out at `i` and followed by
      the closing bracket read "name type[ NOT NULL]" and the separator
      CommaAfter decides. */
  lemma LayoutRenders(ps: seq<Part>, i: nat, cols: seq<FieldDefinition>, sqlType: Option<ClrType> -> string)
    requires i <= |ps| && DistinctNames(cols)
    ensures ColumnsRender(Layout(ps, i, cols, sqlType) + [ClosePart], ps, i, cols, sqlType)
  {
    if |cols| > 0 {
      var last := LayoutLastColumnOrKey(ps, i, cols, sqlType);
      forall k | 0 <= k < |cols|
        ensures var st := Layout(ps, i, cols, sqlType) + [ClosePart];
                st[i + k] == FieldColumn(cols[k], sqlType) &&
                Render(st[i + k], st) ==
                  Wrappers.Success(ColumnBody(cols[k], sqlType) + (if CommaAfter(ps, i, cols, k) then ", " else ""))
      {
        LayoutRendersColumn(ps, i, cols, k, last, sqlType);
      }
    }
  }

  /** Create on any map, compiled: each column Create adds stands at the
      slot in field order and reads "name type[ NOT NULL]" followed by the
      separator CommaAfter decides against the map Create started from. */
  lemma CreateRendersColumns(ps: seq<Part>, tableName: string, fields: seq<FieldDefinition>,
                             sqlType: Option<ClrType> -> string)
    requires DistinctNames(fields)
    ensures var ps1 := InsertBefore(ps, CreatePart(tableName), OperationType.None);
            var i := ColumnSlot(ps1);
            var cols := Admitted(ps, fields);
            var st := CreatedParts(ps, tableName, fields, sqlType);
            st == Layout(ps1, i, cols, sqlType) + [ClosePart] &&
            ColumnsRender(st, ps1, i, cols, sqlType)
  {
    var ps1 := InsertBefore(ps, CreatePart(tableName), OperationType.None);
    var i := ColumnSlot(ps1);
    var cols := Admitted(ps, fields);
    assert CreatedParts(ps, tableName, fields, sqlType) == Layout(ps1, i, cols, sqlType) + [ClosePart] by {
      CreateLayout(ps, tableName, fields, sqlType);
    }
    AdmittedDistinct(ps, fields);
    LayoutRenders(ps1, i, cols, sqlType);
  }

  /** Without Column or TableKeys parts in the map, every column Create adds
      is followed by ", " except the last. */
  lemma KeylessCommas(ps: seq<Part>, tableName: string, fields: seq<FieldDefinition>)
    requires forall j :: 0 <= j < |ps| ==> !ColumnOrKey(ps[j])
    ensures var ps1 := InsertBefore(ps, CreatePart(tableName), OperationType.None);
            var cols := Admitted(ps, fields);
            forall k :: 0 <= k < |cols| ==> (CommaAfter(ps1, ColumnSlot(ps1), cols, k) <==> k != |cols| - 1)
  {
    var c := BeforeIndex(ps, OperationType.None);
    var cp := CreatePart(tableName);
    var ps1 := InsertBefore(ps, cp, OperationType.None);
    assert ps1 == InsertAt(ps, c, cp);
    forall j | 0 <= j < |ps1|
      ensures !ColumnOrKey(ps1[j])
    {
      if j < c {
        assert ps1[j] == ps1[..c][j] == ps[j];
      } else if c < j {
        assert ps1[j] == ps1[c + 1..][j - c - 1] == ps[j - 1];
      }
    }
  }

  /** Inserting a part that is neither a column nor a key keeps the last
      Column or TableKeys part, shifted when the part goes in before it. */
  lemma LastColumnOrKeyInsert(ps: seq<Part>, c: nat, p: Part) returns (j1: nat)
    requires c <= |ps| && !ColumnOrKey(p) && LastColumnOrKey(ps).Some?
    ensures var ps1 := InsertAt(ps, c, p);
            j1 < |ps1| && ps1[j1] == ps[LastColumnOrKey(ps).value] &&
            LastColumnOrKey(ps1) == Wrappers.Some(j1)
  {
    var ps1 := InsertAt(ps, c, p);
    var j := LastColumnOrKey(ps).value;
    LastColumnOrKeyIsLast(ps);
    j1 := if j < c then j else j + 1;
    assert ps1[j1] == ps[j] by {
      if j < c {
        assert ps1[j] == ps1[..c][j];
      } else {
        assert ps1[j + 1] == ps1[c + 1..][j - c];
      }
    }
    forall y | j1 < y < |ps1|
      ensures !ColumnOrKey(ps1[y])
    {
      if y < c {
        assert ps1[y] == ps1[..c][y] == ps[y];
      } else if c < y {
        assert ps1[y] == ps1[c + 1..][y - c - 1] == ps[y - 1];
      }
    }
    LastColumnOrKeyAt(ps1, j1);
  }

  /** A Column part at `j` puts the column slot at `j` or before it. */
  lemma SlotBeforeColumn(ps: seq<Part>, j: nat)
    requires j < |ps| && ps[j].Op() == Column
    ensures ColumnSlot(ps) <= j
  {
    assert AnyColumn(ps);
    ColumnSlotPlacement(ps);
  }

  /** When the map's last Column or TableKeys part is a Column part, as after
      Column(...) and then Create(), every column Create adds is followed by
      ", ": the columns go in front of the declared ones. */
  lemma DeclaredColumnCommas(ps: seq<Part>, tableName: string, fields: seq<FieldDefinition>)
    requires LastColumnOrKey(ps).Some? && ps[LastColumnOrKey(ps).value].Op() == Column
    ensures var ps1 := InsertBefore(ps, CreatePart(tableName), OperationType.None);
            var cols := Admitted(ps, fields);
            forall k :: 0 <= k < |cols| ==> CommaAfter(ps1, ColumnSlot(ps1), cols, k)
  {
    var c := BeforeIndex(ps, OperationType.None);
    var ps1 := InsertBefore(ps, CreatePart(tableName), OperationType.None);
    var q := ps[LastColumnOrKey(ps).value];
    var j1 := LastColumnOrKeyInsert(ps, c, CreatePart(tableName));
    SlotBeforeColumn(ps1, j1);
    assert ClosingColumnOrKey(ps1, ColumnSlot(ps1)) == Wrappers.Some(q);
    var cols := Admitted(ps, fields);
    forall k | 0 <= k < |cols|
      ensures q.Id() != Wrappers.Some(cols[k].memberName)
    {
      AdmittedSound(ps, fields, cols[k]);
    }
  }

  // ---------------------------------------------------------------------------
  // The builder
  // ---------------------------------------------------------------------------

  /** TableQueryBuilder<T> for SQLite. `tableName` is typeof(T).Name,
      `fields` the field definitions of T and `sqlType` the dialect's
      ToSqlDbType. */
  class TableQueryBuilder {
    const tableName: string
    const fields: seq<FieldDefinition>
    const sqlType: Option<ClrType> -> string
    const partsMap: PartsMap
    const context: DatabaseContext

    constructor (tableName: string, fields: seq<FieldDefinition>, sqlType: Option<ClrType> -> string,
                 partsMap: PartsMap, context: DatabaseContext)
      ensures this.tableName == tableName && this.fields == fields && this.sqlType == sqlType
      ensures this.partsMap == partsMap && this.context == context
    {
      this.tableName := tableName;
      this.fields := fields;
      this.sqlType := sqlType;
      this.partsMap := partsMap;
      this.context := context;
    }

    /** Create: the create part, one column per field not already there, the
        closing bracket, and the statement registered with the context. */
    method Create()
      modifies partsMap, context
      ensures partsMap.parts == CreatedParts(old(partsMap.parts), tableName, fields, sqlType)
      ensures context.queries == old(context.queries) + [MapQueryCommand(partsMap.parts)]
    {
      partsMap.AddBefore(CreatePart(tableName), OperationType.None);
      AddColumns();
      partsMap.Add(ClosePart);
      context.AddQuery(MapQueryCommand(partsMap.parts));
    }

    /** The loop of Create, over the fields in reverse order. */
    method AddColumns()
      modifies partsMap
      ensures partsMap.parts == CreatedColumns(old(partsMap.parts), fields, sqlType)
    {
      ghost var start := partsMap.parts;
      var i := |fields|;
      assert fields[..|fields|] == fields;
      while i > 0
        invariant 0 <= i <= |fields|
        invariant CreatedColumns(partsMap.parts, fields[..i], sqlType) == CreatedColumns(start, fields, sqlType)
      {
        assert fields[..i][..i - 1] == fields[..i - 1];
        AddColumn(fields[i - 1]);
        i := i - 1;
      }
    }

    /** One turn of Create's loop. */
    method AddColumn(field: FieldDefinition)
      modifies partsMap
      ensures partsMap.parts == CreateStep(old(partsMap.parts), field, sqlType)
    {
      if !Present(partsMap.parts, field.memberName) {
        var fieldPart := ColumnPart(field.memberName, Wrappers.Some(field.memberType), field.isNullable, sqlType);
        if AnyColumn(partsMap.parts) {
          partsMap.AddBefore(fieldPart, Column);
        } else {
          partsMap.AddAfter(fieldPart, CreateTable);
        }
      }
    }

    /** RenameTo<TNew>: one part renaming the table, and the statement
        registered with the context. */
    method RenameTo(newName: string)
      modifies partsMap, context
      ensures partsMap.parts == old(partsMap.parts) + [RenamePart(tableName, newName)]
      ensures context.queries == old(context.queries) + [MapQueryCommand(partsMap.parts)]
    {
      partsMap.Add(RenamePart(tableName, newName));
      context.AddQuery(MapQueryCommand(partsMap.parts));
    }

    /** Column(string, ...): a column definition placed after the last column
        (after the create part when there is none), or an ADD COLUMN part; a
        null type for ADD and any other operation fail before the map changes. */
    method ColumnByName(column: string, operation: FieldOperation, fieldType: Option<ClrType>,
                        isNullable: Option<bool>)
      returns (outcome: Wrappers.Outcome)
      modifies partsMap
      ensures operation.None? ==>
                outcome == Wrappers.Pass &&
                partsMap.parts == InsertAfter(old(partsMap.parts),
                                              ColumnPart(column, fieldType, if isNullable.Some? then isNullable.value else true, sqlType),
                                              if AnyColumn(old(partsMap.parts)) then Column else CreateTable)
      ensures operation.Add? && fieldType.None? ==>
                outcome == Wrappers.Fail(Wrappers.ArgumentNull("fieldType")) && partsMap.parts == old(partsMap.parts)
      ensures operation.Add? && fieldType.Some? ==>
                outcome == Wrappers.Pass &&
                partsMap.parts == old(partsMap.parts) +
                  [Delegate(AlterField, Wrappers.None, Literal(AddColumnByName(column, fieldType.value, isNullable, sqlType)))]
      ensures operation.Other? ==>
                outcome == Wrappers.Fail(Wrappers.NotSupported(NotSupportedMessage)) && partsMap.parts == old(partsMap.parts)
    {
      if operation.None? {
        var part := ColumnPart(column, fieldType, if isNullable.Some? then isNullable.value else true, sqlType);
        partsMap.AddAfter(part, if AnyColumn(partsMap.parts) then Column else CreateTable);
        outcome := Wrappers.Pass;
      } else if operation.Add? {
        if fieldType.None? {
          return Wrappers.Fail(Wrappers.ArgumentNull("fieldType"));
        }
        var expression := AddColumnByName(column, fieldType.value, isNullable, sqlType);
        partsMap.Add(Delegate(AlterField, Wrappers.None, Literal(expression)));
        outcome := Wrappers.Pass;
      } else {
        outcome := Wrappers.Fail(Wrappers.NotSupported(NotSupportedMessage));
      }
    }

    /** Column(expression, ...): the member the lambda names is looked up
        among the fields; then as Column(string, ...) with the field's type and
        nullability. A failed extraction, or a member that is no field (a null
        reference in the source), fails before the map changes. */
    method ColumnByExpression(column: Option<FieldHelper.LambdaExpression>, operation: FieldOperation,
                              isNullable: Option<bool>)
      returns (outcome: Wrappers.Outcome)
      modifies partsMap
      ensures FieldHelper.TryExtractPropertyName(column).Failure? ==>
                outcome == Wrappers.Fail(FieldHelper.TryExtractPropertyName(column).error) &&
                partsMap.parts == old(partsMap.parts)
      ensures FieldHelper.TryExtractPropertyName(column).Success? ==>
                var field := TypeDefinitionFactory.FirstMember(fields, FieldHelper.TryExtractPropertyName(column).value);
                (operation.Other? ==>
                   outcome == Wrappers.Fail(Wrappers.NotSupported(NotSupportedMessage)) && partsMap.parts == old(partsMap.parts)) &&
                (!operation.Other? && field.None? ==>
                   outcome == Wrappers.Fail(Wrappers.NullReference) && partsMap.parts == old(partsMap.parts)) &&
                (operation.None? && field.Some? ==>
                   var f := fields[field.value];
                   outcome == Wrappers.Pass &&
                   partsMap.parts == InsertAfter(old(partsMap.parts),
                                            ColumnPart(f.memberName, Wrappers.Some(f.memberType),
                                                       if isNullable.Some? then isNullable.value else f.isNullable, sqlType),
                                            if AnyColumn(old(partsMap.parts)) then Column else CreateTable)) &&
                (operation.Add? && field.Some? ==>
                   outcome == Wrappers.Pass &&
                   partsMap.parts == old(partsMap.parts) +
                     [Delegate(AlterField, Wrappers.None, Literal(AddColumnForField(fields[field.value], isNullable, sqlType)))])
    {
      var memberName := FieldHelper.TryExtractPropertyName(column);
      if memberName.Failure? {
        return Wrappers.Fail(memberName.error);
      }
      var field := TypeDefinitionFactory.FirstMember(fields, memberName.value);
      if operation.None? {
        if field.None? {
          return Wrappers.Fail(Wrappers.NullReference);
        }
        var f := fields[field.value];
        var part := ColumnPart(f.memberName, Wrappers.Some(f.memberType),
                               if isNullable.Some? then isNullable.value else f.isNullable, sqlType);
        partsMap.AddAfter(part, if AnyColumn(partsMap.parts) then Column else CreateTable);
        outcome := Wrappers.Pass;
      } else if operation.Add? {
        if field.None? {
          return Wrappers.Fail(Wrappers.NullReference);
        }
        var expression := AddColumnForField(fields[field.value], isNullable, sqlType);
        partsMap.Add(Delegate(AlterField, Wrappers.None, Literal(expression)));
        outcome := Wrappers.Pass;
      } else {
        outcome := Wrappers.Fail(Wrappers.NotSupported(NotSupportedMessage));
      }
    }
  }
}
