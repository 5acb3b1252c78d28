# PersistanceMap query parts, in Dafny

PersistanceMap is a small .NET object-relational mapper. Its fluent API does not write SQL directly. It first builds a *parts map*: an ordered sequence of query parts, each tagged with an `OperationType`, and each part renders one SQL fragment when the map is compiled.

This project models that query-parts layer and proves what its code promises:

- **Connection strings.** Reading and replacing the catalog name in a connection string, over a fixed, ordered list of key spellings.
- **Select lists.** Merging a requested field list into every `Select` group. Fields already mapped are kept, stale ones are removed, sealed groups gain nothing, and the list is re-punctuated.
- **Groups.** Compiling a `select ` / `DELETE ` / `SET ` group.
- **Stored procedures.** Assembling a call: declarations, `EXEC name p1, p2`, then the `SELECT` line for the output parameters.
- **Parameters.** Rendering a parameter from its name and value.
- **SQLite DDL.** The table builder's `CREATE TABLE IF NOT EXISTS T (…)`, `ADD COLUMN …` and `ALTER TABLE T RENAME TO U`. Column texts are computed from the map as it stands at compile time.
- **Type metadata.** The field definitions of a type, with:
  - the primary-key naming convention;
  - the nullability rule;
  - the per-type cache;
  - copying field types and converters from field parts;
  - merging a declared type's metadata onto a projection type.
- **Property names.** Extracting a property name from a lambda expression.

The modules follow the source files:

- `Wrappers` holds `Option`, `Result`, `Outcome` and the exceptions as values.
- `Text` holds the .NET string helpers used: ASCII `ToLower`, `IndexOf`, `Replace` with "", and joining.
- `ClrTypes` describes .NET types as far as the mapper looks at them.
- `QueryParts` holds the parts, the `PartsMap` container class, and the placement functions `Add`, `AddBefore`, `AddAfter`, `AddToLast` and `Remove`.
- One module per core source file.

Imperative code is modelled as methods with loops, each proved against a specification function. Examples:

- `QueryPartsBuilder.AddFieldParts` mutates the map's `parts` field.
- `TableQueryBuilder.Create` mutates both the parts map and the context.

Pure code is modelled as functions.

The parts container's implementation is not part of this model; only its interface, src/PersistenceMap/IQueryPartsContainer.cs, is. The model assumes these placement rules:

- `AddBefore` puts the part before the *first* part with the tag, or at the start when there is none.
- `AddAfter` puts it after the *last* part with the tag, or at the end when there is none.

The interface comment on `AddBefore` (line 19) says "before the last operation". Under that reading, Create's reverse loop would turn fields A, B, C into columns B, A, C. So the column-order results below rest on the first-anchor assumption.

Two points where the model follows what the code does:

- **Field suffixes.** `AddFiedlParts` stores `Sufix` on each field part (QueryPartsBuilder.cs:57, 68, 80). A group does not recompute it when it compiles, and the model stores it too.
- **Select reconciliation.** `AddFiedlParts` reconciles only the direct children of top-level `Select` decorators (QueryPartsBuilder.cs:44), not a flattened view of the map.

## Model

| member | source | states |
|---|---|---|
| ConnectionStringFactory.RegexMatchFrom | src/PersistanceMap/Factories/ConnectionStringFactory.cs:41-42 | the match of "{pattern}[^;]*;" is the leftmost occurrence of the pattern with a ';' after it, ending just past the first such ';'; with no match, no position matches |
| ConnectionStringFactory.GetDatabase | src/PersistanceMap/Factories/ConnectionStringFactory.cs:37-58 | the result is null exactly when no catalog pattern occurs in the connection string |
| ConnectionStringFactory.NoDatabaseIffNoPattern | src/PersistanceMap/Factories/ConnectionStringFactory.cs:39-57 | both search loops of GetDatabase find nothing iff none of the patterns occurs |
| ConnectionStringFactory.SetDatabase | src/PersistanceMap/Factories/ConnectionStringFactory.cs:66-88 | a connection string without any catalog pattern is returned unchanged |
| ConnectionStringFactory.NoSetIffNoPattern | src/PersistanceMap/Factories/ConnectionStringFactory.cs:69-87 | both loops of SetDatabase find nothing iff no pattern occurs |
| ConnectionStringFactory.SetByMatchShape | src/PersistanceMap/Factories/ConnectionStringFactory.cs:69-77 | the pattern used has a regex match and no earlier pattern has one; every match of it is replaced by "{pattern}{database};" |
| ConnectionStringFactory.SetByIndexShape | src/PersistanceMap/Factories/ConnectionStringFactory.cs:80-85 | the pattern used occurs and no earlier pattern does; the text is kept up to the end of its first occurrence and the database is appended |
| ConnectionStringFactory.ExtractFromReplacement | src/PersistanceMap/Factories/ConnectionStringFactory.cs:45 | removing the pattern and ';' from "{pattern}{db};" gives back db |
| ConnectionStringFactory.RoundTripByMatch | src/PersistanceMap/Factories/ConnectionStringFactory.cs:39-77 | after a regex replacement, the regex loop of GetDatabase reads back the database written |
| ConnectionStringFactory.RoundTripByIndex | src/PersistanceMap/Factories/ConnectionStringFactory.cs:50-85 | after the fallback, the fallback loop of GetDatabase reads back the database written |
| ConnectionStringFactory.FallbackRoundTrip | src/PersistanceMap/Factories/ConnectionStringFactory.cs:37-88 | when no pattern has a regex match, GetDatabase reads back what the fallback of SetDatabase wrote |
| ConnectionStringFactory.GetAfterSet | src/PersistanceMap/Factories/ConnectionStringFactory.cs:37-88 | for a database name without ';', '$' or '=', GetDatabase(SetDatabase(db, cs)) is db whenever cs contains some catalog pattern |
| Text.LowerStringEqualIffIgnoreCase | src/PersistanceMap/Factories/TypeDefinitionFactory.cs:142-143 | lower-casing both strings and comparing them is case-insensitive equality |
| ClrTypes.ClrType.Underlying | src/PersistanceMap/Factories/TypeDefinitionFactory.cs:118 | the conditional `isNullableType ? Nullable.GetUnderlyingType(t) : t`: the underlying value type of a Nullable<>, the type itself otherwise; never a Nullable<> |
| QueryParts.FirstTagged | src/PersistenceMap/IQueryPartsContainer.cs:19-23 | the first part with the tag, and no part before it has it; None when no part has it |
| QueryParts.LastTagged | src/PersistenceMap/IQueryPartsContainer.cs:25-30 | the last part with the tag, and no part after it has it; None when no part has it |
| QueryParts.InsertBeforePlacement | src/PersistenceMap/IQueryPartsContainer.cs:19-23 | AddBefore, under the assumed rule: the new part sits just before the first part with the tag, the others keep their order, and with no such part it comes first |
| QueryParts.InsertAfterPlacement | src/PersistenceMap/IQueryPartsContainer.cs:25-30 | AddAfter: the new part sits just after the last part with the tag, the others keep their order, and with no such part it comes last |
| QueryParts.AddedToLastShape | src/PersistenceMap/IQueryPartsContainer.cs:32-44 | AddToLast: the part is appended to the children of the last decorator the predicate accepts, which keeps its tag and seal while all other parts stay unchanged; with no such decorator it is appended to the map |
| QueryParts.RemoveUndoesAdd | src/PersistenceMap/IQueryPartsContainer.cs:12-50 | removing a part just added, that was not there before, restores the map |
| QueryParts.RemoveAbsent | src/PersistenceMap/IQueryPartsContainer.cs:46-50 | removing a part that does not occur changes nothing |
| QueryParts.PartsMap.Add | src/PersistenceMap/IQueryPartsContainer.cs:12-16 | the part is appended to the map |
| QueryParts.PartsMap.AddBefore | src/PersistenceMap/IQueryPartsContainer.cs:18-23 | the new parts are the insert-before-first placement of the old ones |
| QueryParts.PartsMap.AddAfter | src/PersistenceMap/IQueryPartsContainer.cs:25-30 | the new parts are the insert-after-last placement of the old ones |
| QueryParts.PartsMap.AddToLast | src/PersistenceMap/IQueryPartsContainer.cs:32-37 | the part joins the last decorator tagged with the operation |
| QueryParts.PartsMap.AddToLastWhere | src/PersistenceMap/IQueryPartsContainer.cs:39-44 | the part joins the last decorator the predicate accepts |
| QueryParts.PartsMap.Remove | src/PersistenceMap/IQueryPartsContainer.cs:46-50 | the part is removed from the map and from every decorator's children |
| QueryPartsBuilder.ConvertExpression | src/PersistanceMap/QueryBuilder/QueryPartsBuilders/QueryPartsBuilder.cs:90-98 | a null converter gives null; any other is wrapped |
| QueryPartsBuilder.AddFieldQueryMap | src/PersistanceMap/QueryBuilder/QueryPartsBuilders/QueryPartsBuilder.cs:30-40 | exactly one Include part is appended; its ID is the alias when one is given, else the field; its converter is the converted expression |
| QueryPartsBuilder.MarkMatches | src/PersistanceMap/QueryBuilder/QueryPartsBuilders/QueryPartsBuilder.cs:52-61 | every field part whose Field or FieldAlias equals the requested field gets suffix ", " and leaves the unused set; the result says whether any matched |
| QueryPartsBuilder.MarkAll | src/PersistanceMap/QueryBuilder/QueryPartsBuilders/QueryPartsBuilder.cs:47-70 | each old child is marked by the fields that match it, the unmatched requested fields are appended in order, and the unused set is exactly the old field parts no requested field matches |
| QueryPartsBuilder.RemoveUnused | src/PersistanceMap/QueryBuilder/QueryPartsBuilders/QueryPartsBuilder.cs:72-76 | removing the unused field parts leaves the kept children followed by the appended ones |
| QueryPartsBuilder.PunctuateLast | src/PersistanceMap/QueryBuilder/QueryPartsBuilders/QueryPartsBuilder.cs:78-80 | the last field part gets suffix " " |
| QueryPartsBuilder.MergeGroup | src/PersistanceMap/QueryBuilder/QueryPartsBuilders/QueryPartsBuilder.cs:45-80 | one Select group after the merge equals the reference definition MergedChildren |
| QueryPartsBuilder.AddFieldParts | src/PersistanceMap/QueryBuilder/QueryPartsBuilders/QueryPartsBuilder.cs:42-82 | the map after the loop over its parts is the reference merge MergedSelect of the map before it |
| QueryPartsBuilder.MergedSelectShape | src/PersistanceMap/QueryBuilder/QueryPartsBuilders/QueryPartsBuilder.cs:42-82 | the merge keeps the map's length and every part that is not a top-level Select decorator; a Select decorator keeps its ID and sealing and takes the merged children |
| QueryPartsBuilder.AppendedAreUnmatched | src/PersistanceMap/QueryBuilder/QueryPartsBuilders/QueryPartsBuilder.cs:49-69 | no appended field matches an existing child or an earlier appended one, and each is a requested field with suffix ", " |
| QueryPartsBuilder.MatchIgnoresTarget | src/PersistanceMap/QueryBuilder/QueryPartsBuilders/QueryPartsBuilder.cs:52 | whether a requested field is already mapped depends only on its Field |
| QueryPartsBuilder.SealedAddsNothing | src/PersistanceMap/QueryBuilder/QueryPartsBuilders/QueryPartsBuilder.cs:64-65 | a sealed group gains no field parts; it is only reconciled and re-punctuated |
| QueryPartsBuilder.UnsealedAppendsInOrder | src/PersistanceMap/QueryBuilder/QueryPartsBuilders/QueryPartsBuilder.cs:49-69 | in an unsealed group, when no two requested fields match each other, the fields appended are exactly the requested fields that match no part of the group, in the order supplied, each with ", " |
| QueryPartsBuilder.KeptFieldsMatched | src/PersistanceMap/QueryBuilder/QueryPartsBuilders/QueryPartsBuilder.cs:47-76 | every field part kept was in the group before and matches a requested field |
| QueryPartsBuilder.MatchedFieldsKept | src/PersistanceMap/QueryBuilder/QueryPartsBuilders/QueryPartsBuilder.cs:52-61 | every old field part a requested field matches is kept, with suffix ", " |
| QueryPartsBuilder.KeptKeepsOthers | src/PersistanceMap/QueryBuilder/QueryPartsBuilders/QueryPartsBuilder.cs:73-76 | the children that are not field parts survive the removal unchanged and in order |
| QueryPartsBuilder.PunctuatedShape | src/PersistanceMap/QueryBuilder/QueryPartsBuilders/QueryPartsBuilder.cs:78-80 | re-punctuation changes only the last field part's suffix |
| QueryPartsBuilder.MergedPunctuation | src/PersistanceMap/QueryBuilder/QueryPartsBuilders/QueryPartsBuilder.cs:57-80 | after the merge the last field part of the group has suffix " " and every other field part ", " |
| SimpleQueryPart.Prologue | src/PersistanceMap/QueryParts/Internals/SimpleQueryPart.cs:18-34 | "select " for Select, "DELETE " for Delete, "SET " for Set, and no keyword for any other operation |
| SimpleQueryPart.Compile | src/PersistanceMap/QueryParts/Internals/SimpleQueryPart.cs:14-47 | an operation without a keyword fails with NotImplemented and the source's message; otherwise the keyword and the group body, through RemoveLineBreak |
| SimpleQueryPart.BodyBeforeLast | src/PersistanceMap/QueryParts/Internals/SimpleQueryPart.cs:36-44 | before the last child, the body is the non-empty texts joined by ", ", with ", " after them; empty texts add nothing |
| SimpleQueryPart.GroupBodyJoins | src/PersistanceMap/QueryParts/Internals/SimpleQueryPart.cs:36-44 | when the last child's text is not empty, the body is the non-empty texts joined by ", " followed by " ": A, B, C give "A, B, C " |
| SimpleQueryPart.TrailingEmptyChildLeavesComma | src/PersistanceMap/QueryParts/Internals/SimpleQueryPart.cs:36-43 | children "A" and "" give "A, ", not "A " |
| SimpleQueryPart.IntendedGroupBodyJoins | src/PersistanceMap/QueryParts/Internals/SimpleQueryPart.cs:36-44 | with the comma decided by the last non-empty child, the body is always the non-empty texts joined by ", " and a single " " |
| ProcedureQueryPartsMap.NewProcedureMap | src/PersistanceMap/QueryParts/ProcedureQueryPartsMap.cs:11-16 | a null or empty procedure name is refused with ArgumentNullOrEmpty("procedure"); otherwise an empty map with that name |
| ProcedureQueryPartsMap.TaggedPartsExactly | src/PersistanceMap/QueryParts/ProcedureQueryPartsMap.cs:32 | exactly the parts with the tag |
| ProcedureQueryPartsMap.ParametersExactly | src/PersistanceMap/QueryParts/ProcedureQueryPartsMap.cs:83-89 | exactly the parameter parts of the map |
| ProcedureQueryPartsMap.ParametersInOrder | src/PersistanceMap/QueryParts/ProcedureQueryPartsMap.cs:83-89 | the parameter parts keep map order: Parameters distributes over concatenation |
| ProcedureQueryPartsMap.Declarations | src/PersistanceMap/QueryParts/ProcedureQueryPartsMap.cs:31-38 | each non-empty OutParameterPrefix text in part order, each followed by a line break; empty ones add no line |
| ProcedureQueryPartsMap.ParameterList | src/PersistanceMap/QueryParts/ProcedureQueryPartsMap.cs:46-51 | the parameter texts joined by ", ", with nothing after the last |
| ProcedureQueryPartsMap.SelectLine | src/PersistanceMap/QueryParts/ProcedureQueryPartsMap.cs:53-67 | the loop computes the select line of the OutParameterSufix texts |
| ProcedureQueryPartsMap.Compile | src/PersistanceMap/QueryParts/ProcedureQueryPartsMap.cs:20-77 | the query is declarations, "EXEC {name} ", the parameter list, a line break, the select line and a line break; the compiled query refers back to the map's parts |
| ProcedureQueryPartsMap.SelectOutputEmptyIff | src/PersistanceMap/QueryParts/ProcedureQueryPartsMap.cs:54-67 | the select line is empty exactly when there are no suffix parts; otherwise it starts with "SELECT" |
| ProcedureQueryPartsMap.SelectOutputLists | src/PersistanceMap/QueryParts/ProcedureQueryPartsMap.cs:55-67 | for any suffix texts, the line is "SELECT", then " ," when the first text is empty and a later one is not, then " " and the non-empty texts joined by " , " |
| ProcedureQueryPartsMap.EmptyFirstOutput | src/PersistanceMap/QueryParts/ProcedureQueryPartsMap.cs:57-66 | an empty first suffix text still opens the line, and the next one already gets its separator, so "" and "@p2" give "SELECT , @p2" |
| ProcedureQueryPartsMap.NoOutputsEndsWithTwoLineBreaks | src/PersistanceMap/QueryParts/ProcedureQueryPartsMap.cs:54-70 | without suffix parts the query ends with the parameter list and two line breaks |
| ParameterQueryMap.Unnamed | src/PersistanceMap/QueryParts/Internals/ParameterQueryMap.cs:8-11 | the one-argument constructor gives a parameter without a name |
| ParameterQueryMap.Named | src/PersistanceMap/QueryParts/Internals/ParameterQueryMap.cs:13-17 | the two-argument constructor keeps the name given |
| ParameterQueryMap.NameText | src/PersistanceMap/QueryParts/Internals/ParameterQueryMap.cs:31 | the name's text is empty exactly when the name is null or empty |
| ParameterQueryMap.Compile | src/PersistanceMap/QueryParts/Internals/ParameterQueryMap.cs:35-64 | five cases. A value, quoted, unnamed: the quoted text. Named: "Name=quoted". Not quoted: "Name=raw", even without a name. No value, unnamed: "=" and the expression. No value, named: the expression alone |
| ParameterQueryMap.NullValueNameTestInverted | src/PersistanceMap/QueryParts/Internals/ParameterQueryMap.cs:58-63 | as written, a named parameter without value renders without its name, and an unnamed one renders as "=expr" |
| ParameterQueryMap.IntendedNamedAlwaysAssigns | src/PersistanceMap/QueryParts/Internals/ParameterQueryMap.cs:50-63 | corrected: a named parameter always renders "name=" followed by its bare rendering |
| ParameterQueryMap.IntendedUnnamedIsBare | src/PersistanceMap/QueryParts/Internals/ParameterQueryMap.cs:44-63 | corrected: an unnamed parameter whose value is quoted or null renders bare |
| ParameterQueryMap.IntendedDiffersExactlyOnNull | src/PersistanceMap/QueryParts/Internals/ParameterQueryMap.cs:39-63 | the correction changes the output exactly when the value is null: a named parameter gains "name=" in front of what the code writes, and an unnamed one loses the code's leading "=" |
| TypeDefinitionFactory.CheckPrimaryKeyConvention | src/PersistanceMap/Factories/TypeDefinitionFactory.cs:139-144 | a property is a key iff its name equals "id" or "{entity}id", ignoring case |
| TypeDefinitionFactory.ToFieldDefinition | src/PersistanceMap/Factories/TypeDefinitionFactory.cs:112-137 | field and member name are the property's; entity name and type are the declaring type; nullable iff not a value type or a Nullable<>; member and field type the underlying type; key by the convention; no converter |
| TypeDefinitionFactory.NullabilityRule | src/PersistanceMap/Factories/TypeDefinitionFactory.cs:114-118 | a property is nullable iff its type is not a plain value type; its member type is never a Nullable<> |
| TypeDefinitionFactory.Definitions | src/PersistanceMap/Factories/TypeDefinitionFactory.cs:104 | one definition per selection member, in order |
| TypeDefinitionFactory.CopyAttribute | src/PersistanceMap/Factories/TypeDefinitionFactory.cs:152-171 | the loops over field parts compute the reference definition WithAttribute |
| TypeDefinitionFactory.WithAttributeKeepsNames | src/PersistanceMap/Factories/TypeDefinitionFactory.cs:155-169 | copying field types or converters changes no field name |
| TypeDefinitionFactory.WithAttributeLastWins | src/PersistanceMap/Factories/TypeDefinitionFactory.cs:153-170 | the first field of a name takes the attribute of the last field part with that ID that offers one; every other field is unchanged |
| TypeDefinitionFactory.MatchFieldInformation | src/PersistanceMap/Factories/TypeDefinitionFactory.cs:146-174 | without a parts map the fields are returned as they are; otherwise field types, then converters, are handed on |
| TypeDefinitionFactory.MatchedFieldsCharacterized | src/PersistanceMap/Factories/TypeDefinitionFactory.cs:152-171 | same length; each first field of a name takes the field type and converter of the last field part with its ID that has one; unmatched fields keep theirs |
| TypeDefinitionFactory.FieldTypeUpdateLost | src/PersistanceMap/Factories/TypeDefinitionFactory.cs:155-158 | as written, a field part typing field "Name" as Int32 leaves the returned field typed String |
| TypeDefinitionFactory.FirstMember | src/PersistanceMap/Factories/TypeDefinitionFactory.cs:40 | FirstOrDefault by member name |
| TypeDefinitionFactory.MergeDefinitions | src/PersistanceMap/Factories/TypeDefinitionFactory.cs:37-55 | same length and order; each projection field is merged with the first declared field of its member name; names, types and converter are kept |
| TypeDefinitionFactory.MergedFieldTakesDeclared | src/PersistanceMap/Factories/TypeDefinitionFactory.cs:40-47 | a matched field takes the declared nullability, key flag, entity name and entity type |
| TypeDefinitionFactory.MergeOntoItself | src/PersistanceMap/Factories/TypeDefinitionFactory.cs:32-56 | merging definitions with distinct names onto themselves changes nothing |
| TypeDefinitionFactory.FieldDefinitionCache.Extract | src/PersistanceMap/Factories/TypeDefinitionFactory.cs:95-110 | the first lookup of a type stores its definitions, and later ones leave the cache alone. The result is the corrected matching of Findings row 3; without a parts map it is what the code returns |
| TypeDefinitionFactory.FieldDefinitionCache.GetMergedFieldDefinitions | src/PersistanceMap/Factories/TypeDefinitionFactory.cs:32-56 | the projection type's definitions, one per member and in order, each merged with the declared type's; the cache gains entries for both types and keeps every earlier entry as it was |
| FieldHelper.AccessedMember | src/PersistanceMap/Factories/FieldHelper.cs:14-27 | the member accessed by the body itself, by a unary body's operand, or by a binary body's left operand; none for any other shape |
| FieldHelper.TryExtractPropertyName | src/PersistanceMap/Factories/FieldHelper.cs:10-59 | null is refused with ArgumentNull; an instance property gives its name; a static property or a non-property gives the member's string form; a property with no getter fails with NullReference; any other shape gives the evaluated value's text or the expression's text |
| DatabaseQueryBuilder.DatabaseContext.AddQuery | src/PersistanceMap.Sqlite/QueryBuilder/DatabaseQueryBuilder.cs:82-94 | the command is registered after those already there |
| DatabaseQueryBuilder.ColumnPart | src/PersistanceMap.Sqlite/QueryBuilder/DatabaseQueryBuilder.cs:41-50 | CreateColumn makes a Column part whose ID is the column name |
| DatabaseQueryBuilder.Render | src/PersistanceMap.Sqlite/QueryBuilder/DatabaseQueryBuilder.cs:43-47 | a literal part renders its own text; a column definition can fail only with InvalidOperation and the "Sequence contains no matching element" message of Enumerable.Last |
| DatabaseQueryBuilder.RenderFails | src/PersistanceMap.Sqlite/QueryBuilder/DatabaseQueryBuilder.cs:47 | a column definition fails to render exactly when the map has no Column or TableKeys part |
| DatabaseQueryBuilder.RenderColumn | src/PersistanceMap.Sqlite/QueryBuilder/DatabaseQueryBuilder.cs:43-47 | against a map whose last Column or TableKeys part is at a given index, a column reads "{name} {type}", then " NOT NULL" iff not nullable, then ", " unless that part has the column's name as ID |
| DatabaseQueryBuilder.AddColumnNullability | src/PersistanceMap.Sqlite/QueryBuilder/DatabaseQueryBuilder.cs:171-211 | ADD COLUMN writes " NOT NULL" iff the effective nullability is false: the one given, else the field's (by expression) or true (by name); both forms agree when it is given |
| DatabaseQueryBuilder.LastColumnOrKey | src/PersistanceMap.Sqlite/QueryBuilder/DatabaseQueryBuilder.cs:47 | the index found holds a Column or TableKeys part |
| DatabaseQueryBuilder.LastColumnOrKeyIsLast | src/PersistanceMap.Sqlite/QueryBuilder/DatabaseQueryBuilder.cs:47 | no Column or TableKeys part follows the one found, and when none is found the map has none: Enumerable.Last over those parts |
| DatabaseQueryBuilder.AdmittedComplete | src/PersistanceMap.Sqlite/QueryBuilder/DatabaseQueryBuilder.cs:63-69 | every field without a Column or IgnoreColumn part of its name gets a column |
| DatabaseQueryBuilder.AdmittedSound | src/PersistanceMap.Sqlite/QueryBuilder/DatabaseQueryBuilder.cs:63-69 | only fields of the definition without a Column or IgnoreColumn part of their name get a column |
| DatabaseQueryBuilder.StepOnLayout | src/PersistanceMap.Sqlite/QueryBuilder/DatabaseQueryBuilder.cs:65-76 | one turn of Create's loop puts the field's column in front of the columns laid out so far at the column slot, or skips a field already present |
| DatabaseQueryBuilder.ColumnsOnLayout | src/PersistanceMap.Sqlite/QueryBuilder/DatabaseQueryBuilder.cs:63-77 | on any map, the reverse loop combined with insert-before-Column lays the admitted fields out at the column slot in field-definition order |
| DatabaseQueryBuilder.CreateLayout | src/PersistanceMap.Sqlite/QueryBuilder/DatabaseQueryBuilder.cs:57-81 | on any map, Create yields the create part where AddBefore(None) puts it, the admitted columns in field order at the column slot (before the first existing Column part, else after the last create part), and ")" last |
| DatabaseQueryBuilder.ColumnSlotPlacement | src/PersistanceMap.Sqlite/QueryBuilder/DatabaseQueryBuilder.cs:71-76 | the slot is the first Column part when the map has one; otherwise it is just after the last create part, or the end when there is none |
| DatabaseQueryBuilder.CreateOnPlainMap | src/PersistanceMap.Sqlite/QueryBuilder/DatabaseQueryBuilder.cs:57-81 | on a map without column or create parts, the admitted columns follow the create part directly, in field order |
| DatabaseQueryBuilder.AdmittedDistinct | src/PersistanceMap.Sqlite/QueryBuilder/DatabaseQueryBuilder.cs:63-69 | fields with distinct names give columns with distinct names |
| DatabaseQueryBuilder.CreateRendersColumns | src/PersistanceMap.Sqlite/QueryBuilder/DatabaseQueryBuilder.cs:41-83 | on any map, compiled, each column Create adds reads "{name} {type}[ NOT NULL]" and then ", " unless the map's last Column or TableKeys part after the slot has its name as ID; with no such part, only the last added column has no comma |
| DatabaseQueryBuilder.LayoutRenders | src/PersistanceMap.Sqlite/QueryBuilder/DatabaseQueryBuilder.cs:41-49 | columns laid out at an index and closed by ")" render against the final map: the separator is decided by the last Column or TableKeys part, as Enumerable.Last finds it |
| DatabaseQueryBuilder.KeylessCommas | src/PersistanceMap.Sqlite/QueryBuilder/DatabaseQueryBuilder.cs:41-49 | on a map without Column or TableKeys parts, every added column but the last is followed by ", " |
| DatabaseQueryBuilder.DeclaredColumnCommas | src/PersistanceMap.Sqlite/QueryBuilder/DatabaseQueryBuilder.cs:41-77 | when the map's last Column or TableKeys part is a Column part, as after Column(...) then Create(), every added column is followed by ", " |
| DatabaseQueryBuilder.TableQueryBuilder.Create | src/PersistanceMap.Sqlite/QueryBuilder/DatabaseQueryBuilder.cs:57-83 | the map after Create is the reference definition CreatedParts and one command holding it is registered |
| DatabaseQueryBuilder.TableQueryBuilder.AddColumns | src/PersistanceMap.Sqlite/QueryBuilder/DatabaseQueryBuilder.cs:63-77 | the reverse loop computes CreatedColumns |
| DatabaseQueryBuilder.TableQueryBuilder.AddColumn | src/PersistanceMap.Sqlite/QueryBuilder/DatabaseQueryBuilder.cs:65-76 | one field: skipped when present, else inserted before the first column or after the create part |
| DatabaseQueryBuilder.TableQueryBuilder.RenameTo | src/PersistanceMap.Sqlite/QueryBuilder/DatabaseQueryBuilder.cs:89-95 | one part "ALTER TABLE {T} RENAME TO {TNew}" is appended and one command registered |
| DatabaseQueryBuilder.TableQueryBuilder.ColumnByName | src/PersistanceMap.Sqlite/QueryBuilder/DatabaseQueryBuilder.cs:192-220 | None: a column, nullable unless told otherwise, after the last column or the create part. Add: a null type fails with ArgumentNull("fieldType"), otherwise an AlterField part. Anything else: NotSupported. On failure the map is unchanged |
| DatabaseQueryBuilder.TableQueryBuilder.ColumnByExpression | src/PersistanceMap.Sqlite/QueryBuilder/DatabaseQueryBuilder.cs:155-181 | a failed property-name extraction or an unsupported operation fails first; a member that is no field is a null reference; otherwise as by name, with the field's type and nullability |

## Left out

- **Regular expressions.** `Regex.Replace` substitutions (`$1`, `$$`) in the replacement string are not modelled, so the round trip assumes a database name without '$', ';' or '='. Patterns are matched as literal text: every catalog pattern consists of letters, blanks and '='.
- **Null strings.** A null connection string or database name is not modelled: the strings are values.
- **Case mapping.** `ToLower` is ASCII lower-casing. Culture-specific case mapping is left out. `string.IndexOf(string)` (ConnectionStringFactory.cs:52, 82) is culture-sensitive in .NET; the model's search is ordinal.
- **Object identity.** Parts and field definitions are values. Reference tests are modelled by position:
  - `last == part` in SimpleQueryPart.Compile;
  - `Parameters.Last() == param`;
  - `unusedMappedFields.Remove`;
  - `map.Remove`.

  The model does not capture one object shared by two places.
- AddFieldParts and MergedPunctuation: QueryPartsBuilder.cs:68-69 appends the same FieldQueryPart object to every unsealed Select decorator. A ", " set for a later group therefore overwrites the " " that :80 gave it as the last field of an earlier group. The model's values keep the " " in each group.
- **Decorators.** They are values inside the map. `PartsMap.AddToLast` and `Remove` rebuild the decorator rather than update it where it is referenced.
- **Parts container.** Its implementation is not part of this model. The placement rules above are the model's assumption, and every proof about AddBefore/AddAfter (Create's column order above all) depends on them. So is the rule that AddToLast appends at the top level when no decorator qualifies.
- ColumnsOnLayout: the field order it proves rests on the assumed AddBefore rule (the first tagged part). The interface comment at IQueryPartsContainer.cs:19 says "before the last operation". Under that reading, fields A, B, C would come out as B, A, C. CreateLayout, CreateRendersColumns and DeclaredColumnCommas inherit this assumption.
- CreateRendersColumns: the ID of a TableKeys part is taken as given. Those parts are written by `Key` in a base class that is not part of this model.
- FieldDefinitionCache.Extract: its result is the corrected matching of Findings row 3, where the returned fields carry the parts' field types and converters. The code returns the cached deferred query, so with a parts map its callers see the definitions without those updates. Without a parts map, as in GetMergedFieldDefinitions, the two agree.
- DatabaseContext.AddQuery: SqliteDatabaseContext is not part of this model. The model assumes that AddQuery appends the command after those already registered.
- **Select reconciliation scope.** AddFieldParts and MatchFieldInformation look only at top-level decorators' direct children, as the code's `OfType<IQueryPartDecorator>()` does.
- **Fluent-builder methods of an unseen base class.** `Ignore`, `Key` and `ForeignKey` (DatabaseQueryBuilder.cs:102-145) only delegate to that class and return a new builder. The model only reads the Column, IgnoreColumn and TableKeys parts they leave behind.
- **Returned builders.** The table builder's fluent methods return a new builder over the same map and context. The model returns an Outcome, and the builder itself stays the same object.
- **FieldOperation.** The enumeration is not part of this model. It appears as `None`, `Add` and `Other`, where `Other` stands for any other member.
- **Precision.** The `precision` argument of both Column overloads is unused by the code, and so by the model.
- **MapQueryCommand.** It holds the map by reference; the model registers a snapshot of the parts. `LambdaCompiler` (ProcedureQueryPartsMap.cs:43-44) is created but never used.
- **Foreign calls.** These are parameters of the model:
  - `Type.ToSqlDbType`;
  - `DialectProvider.GetQuotedValue`;
  - `RemoveLineBreak`;
  - each child part's `Compile`;
  - the base `ExpressionQueryPart.Compile`;
  - evaluating a lambda.

  A part's compiled text that is null is taken as empty.
- **Reflection.** `GetSelectionMembers` is a parameter: a type's property list. Getter and setter delegates and `Logger` tracing are left out.
- **Compiled converters.** `Converter.Compile()` is modelled as wrapping the converter.
- **Cache concurrency.** The cache's lock is commented out in the source, and concurrency is out of scope. The cache lives in an object rather than in static state, and the lazy singleton `QueryPartsBuilder.Instance` is left out.
- **Line breaks.** `Environment.NewLine` is taken as "\r\n".
- **Select compilers.** The compilers that combine a select map's parts into one statement (QueryCompiler and the select maps) are not part of this model. Group and procedure compilation are modelled as the code shows them.

## Findings

| source | as written | input that shows it | evidently intended | confidence | as-written member | corrected member |
|---|---|---|---|---|---|---|
| src/PersistanceMap/QueryParts/Internals/SimpleQueryPart.cs:36-44 | whether a comma follows a child is decided by comparing it with the group's last child, even when that child compiles to empty text and is skipped | children compiling to "A" and "" give "select A, " | a comma between the non-empty texts only: "select A " | medium, not executed | SimpleQueryPart.TrailingEmptyChildLeavesComma | SimpleQueryPart.IntendedGroupBodyJoins |
| src/PersistanceMap/QueryParts/Internals/ParameterQueryMap.cs:58-63 | with a null value, `IsNullOrEmpty(Name)` selects "name=expr", so an unnamed parameter renders "=expr" and a named one loses its name | an unnamed parameter whose value is null renders "=NULL"; a parameter named "@p" renders "NULL" | what the comments describe: "@p=NULL" for the named one, "NULL" for the unnamed one | high, not executed | ParameterQueryMap.NullValueNameTestInverted | ParameterQueryMap.IntendedNamedAlwaysAssigns |
| src/PersistanceMap/Factories/TypeDefinitionFactory.cs:104-169 | the cache stores a deferred `Select` query, so MatchFieldInformation updates objects that are rebuilt on the next enumeration, and the caller never sees the field types or converters | a field part typing field "Name" as Int32, for a String property "Name" | the returned fields carry the parts' field types and converters | medium, not executed | TypeDefinitionFactory.FieldTypeUpdateLost | TypeDefinitionFactory.MatchedFieldsCharacterized |
