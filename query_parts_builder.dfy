/** QueryPartsBuilder: adding field parts to a map and reconciling the select
    lists of a map with a requested field list. */
module QueryPartsBuilder {
  import Wrappers
  import opened ClrTypes
  import opened QueryParts

  /** The separator after every field of a select list but the last. */
  const Separator: string := ", "
  /** The separator after the last field of a select list. */
  const LastSeparator: string := " "

  // ---------------------------------------------------------------------------
  // AddFieldQueryMap and ConvertExpression
  // ---------------------------------------------------------------------------

  /** The caller's converter adapted to take `object`; no converter stays none. */
  function ConvertExpression(e: Option<ValueConverter>): (r: Option<ObjectConverter>)
    ensures r.None? <==> e.None?
    ensures r.Some? ==> r.value.inner == e.value
  {
    match e
    case None => Wrappers.None
    case Some(v) => Wrappers.Some(ObjectConverter(v))
  }

  /** Appends one Include-tagged field part whose ID is the alias when there is
      one and the field name otherwise. */
  method AddFieldQueryMap(queryParts: PartsMap, field: string, alias: Option<string>,
                          entity: Option<string>, entityAlias: Option<string>,
                          valueConverter: Option<ValueConverter>)
    returns (part: FieldPart)
    modifies queryParts
    ensures part.op == Include
    ensures part.id == (if alias.Some? then alias.value else field)
    ensures part.field == field && part.alias == alias
    ensures part.entity == entity && part.entityAlias == entityAlias
    ensures part.converter == ConvertExpression(valueConverter)
    ensures part.suffix == "" && part.fieldType.None?
    ensures queryParts.parts == old(queryParts.parts) + [FieldRef(part)]
  {
    var id := if alias.Some? then alias.value else field;
    part := FieldPart(Include, id, field, alias, entity, entityAlias, "", Wrappers.None,
                      ConvertExpression(valueConverter));
    queryParts.Add(FieldRef(part));
  }

  // ---------------------------------------------------------------------------
  // The reference definition of AddFieldParts
  // ---------------------------------------------------------------------------

  /** A mapped field `f` already stands for the supplied field `g`: same field
      name, or an alias equal to `g`'s field name. */
  predicate Matches(f: FieldPart, g: FieldPart) {
    f.field == g.field || f.alias == Wrappers.Some(g.field)
  }

  /** Some supplied field is matched by `f`. */
  predicate MatchedByAny(f: FieldPart, fields: seq<FieldPart>) {
    exists k :: 0 <= k < |fields| && Matches(f, fields[k])
  }

  /** Some field part of `ps` matches `g`. */
  predicate AnyFieldMatches(ps: seq<Part>, g: FieldPart) {
    exists j :: 0 <= j < |ps| && ps[j].FieldRef? && Matches(ps[j].fp, g)
  }

  function FieldParts(fs: seq<FieldPart>): (r: seq<Part>)
    ensures |r| == |fs| && forall i :: 0 <= i < |fs| ==> r[i] == FieldRef(fs[i])
  {
    seq(|fs|, i requires 0 <= i < |fs| => FieldRef(fs[i]))
  }

  /** The supplied fields that get appended to a group, in order, each with
      ", ": those matched by no part of the group at the time they come up,
      and none at all when the group is sealed. */
  function Appended(children: seq<Part>, isSealed: bool, fields: seq<FieldPart>): seq<FieldPart>
    decreases |fields|
  {
    if |fields| == 0 then []
    else
      var prev := Appended(children, isSealed, fields[..|fields| - 1]);
      var g := fields[|fields| - 1];
      if isSealed || AnyFieldMatches(children + FieldParts(prev), g) then prev
      else prev + [g.(suffix := Separator)]
  }

  /** What an existing child leaves behind: a part that is not a field stays, a
      field matched by a supplied field stays with ", ", any other field goes. */
  function Piece(c: Part, fields: seq<FieldPart>): seq<Part> {
    if !c.FieldRef? then [c]
    else if MatchedByAny(c.fp, fields) then [FieldRef(c.fp.(suffix := Separator))]
    else []
  }

  function Kept(children: seq<Part>, fields: seq<FieldPart>): seq<Part>
    decreases |children|
  {
    if |children| == 0 then []
    else Kept(children[..|children| - 1], fields) + Piece(children[|children| - 1], fields)
  }

  /** Index of the last field part. */
  function LastField(ps: seq<Part>): (r: Option<nat>)
    ensures r.Some? ==> r.value < |ps| && ps[r.value].FieldRef?
    ensures r.Some? ==> forall j :: r.value < j < |ps| ==> !ps[j].FieldRef?
    ensures r.None? ==> forall j :: 0 <= j < |ps| ==> !ps[j].FieldRef?
  {
    if |ps| == 0 then Wrappers.None
    else if ps[|ps| - 1].FieldRef? then Wrappers.Some(|ps| - 1)
    else LastField(ps[..|ps| - 1])
  }

  /** The last field part of a group gets " ". */
  function Punctuated(ps: seq<Part>): seq<Part> {
    match LastField(ps)
    case None => ps
    case Some(i) => ps[i := FieldRef(ps[i].fp.(suffix := LastSeparator))]
  }

  /** A Select group's children after AddFieldParts. */
  function MergedChildren(children: seq<Part>, isSealed: bool, fields: seq<FieldPart>): seq<Part> {
    Punctuated(Kept(children, fields) + FieldParts(Appended(children, isSealed, fields)))
  }

  /** A top-level part after AddFieldParts: Select decorators are merged, every
      other part is left alone. */
  function MergedPart(p: Part, fields: seq<FieldPart>): Part {
    if p.Decorator? && p.op == Select then p.(children := MergedChildren(p.children, p.isSealed, fields))
    else p
  }

  function MergedSelect(ps: seq<Part>, fields: seq<FieldPart>): seq<Part> {
    seq(|ps|, i requires 0 <= i < |ps| => MergedPart(ps[i], fields))
  }

  // ---------------------------------------------------------------------------
  // AddFieldParts, as the source does it
  // ---------------------------------------------------------------------------

  /** A child after the first requested fields have been looked at. */
  function Marked(c: Part, fields: seq<FieldPart>): Part {
    if c.FieldRef? && MatchedByAny(c.fp, fields) then FieldRef(c.fp.(suffix := Separator)) else c
  }

  lemma AppendedSuffix(children: seq<Part>, isSealed: bool, fields: seq<FieldPart>)
    ensures forall k :: 0 <= k < |Appended(children, isSealed, fields)| ==>
              Appended(children, isSealed, fields)[k].suffix == Separator
    decreases |fields|
  {
    if |fields| > 0 {
      AppendedSuffix(children, isSealed, fields[..|fields| - 1]);
    }
  }

  /** Only field names and aliases decide a match, so re-punctuated parts match
      as the originals did. */
  lemma MatchIgnoresSuffix(kids: seq<Part>, ps: seq<Part>, g: FieldPart)
    requires |kids| == |ps|
    requires forall i :: 0 <= i < |ps| ==> kids[i].FieldRef? == ps[i].FieldRef?
    requires forall i :: 0 <= i < |ps| && ps[i].FieldRef? ==>
               kids[i].fp.field == ps[i].fp.field && kids[i].fp.alias == ps[i].fp.alias
    ensures AnyFieldMatches(kids, g) <==> AnyFieldMatches(ps, g)
  {
    if AnyFieldMatches(ps, g) {
      var j :| 0 <= j < |ps| && ps[j].FieldRef? && Matches(ps[j].fp, g);
      assert kids[j].FieldRef? && Matches(kids[j].fp, g);
    }
    if AnyFieldMatches(kids, g) {
      var j :| 0 <= j < |kids| && kids[j].FieldRef? && Matches(kids[j].fp, g);
      assert ps[j].FieldRef? && Matches(ps[j].fp, g);
    }
  }

  /** One step of the loop over the requested fields: mark every field part
      that matches `g` with ", " and drop it from `unused`; report whether any
      matched. */
  method MarkMatches(kids: seq<Part>, unused: set<nat>, g: FieldPart)
    returns (marked: seq<Part>, stillUnused: set<nat>, matched: bool)
    ensures |marked| == |kids|
    ensures forall i :: 0 <= i < |kids| ==>
              marked[i] == (if kids[i].FieldRef? && Matches(kids[i].fp, g)
                            then FieldRef(kids[i].fp.(suffix := Separator)) else kids[i])
    ensures matched <==> AnyFieldMatches(kids, g)
    ensures forall i: nat :: i in stillUnused <==>
              i in unused && !(i < |kids| && kids[i].FieldRef? && Matches(kids[i].fp, g))
  {
    marked, stillUnused, matched := kids, unused, false;
    var j := 0;
    while j < |kids|
      invariant 0 <= j <= |kids| && |marked| == |kids|
      invariant forall i :: 0 <= i < |kids| ==>
                  marked[i] == (if i < j && kids[i].FieldRef? && Matches(kids[i].fp, g)
                                then FieldRef(kids[i].fp.(suffix := Separator)) else kids[i])
      invariant matched <==> exists i :: 0 <= i < j && kids[i].FieldRef? && Matches(kids[i].fp, g)
      invariant forall i: nat :: i in stillUnused <==>
                  i in unused && !(i < j && kids[i].FieldRef? && Matches(kids[i].fp, g))
    {
      if marked[j].FieldRef? && Matches(marked[j].fp, g) {
        marked := marked[j := FieldRef(marked[j].fp.(suffix := Separator))];
        stillUnused := stillUnused - {j};
        matched := true;
      }
      j := j + 1;
    }
  }

  lemma MatchedByAnyStep(f: FieldPart, fields: seq<FieldPart>, k: nat)
    requires k < |fields|
    ensures MatchedByAny(f, fields[..k + 1]) <==> MatchedByAny(f, fields[..k]) || Matches(f, fields[k])
  {
    assert fields[..k + 1][k] == fields[k];
    if MatchedByAny(f, fields[..k]) {
      var m :| 0 <= m < k && Matches(f, fields[..k][m]);
      assert fields[..k + 1][m] == fields[..k][m];
    }
    if MatchedByAny(f, fields[..k + 1]) {
      var m :| 0 <= m < k + 1 && Matches(f, fields[..k + 1][m]);
      if m < k { assert fields[..k][m] == fields[..k + 1][m]; }
    }
  }

  /** Appended, one requested field further. */
  lemma AppendedStep(children: seq<Part>, isSealed: bool, fields: seq<FieldPart>, k: nat)
    requires k < |fields|
    ensures var prev := Appended(children, isSealed, fields[..k]);
            Appended(children, isSealed, fields[..k + 1]) ==
              if isSealed || AnyFieldMatches(children + FieldParts(prev), fields[k]) then prev
              else prev + [fields[k].(suffix := Separator)]
  {
    assert fields[..k + 1][..k] == fields[..k];
    assert fields[..k + 1][k] == fields[k];
  }

  /** Marked, one requested field further: MarkMatches applied to the child
      as marked so far. */
  lemma MarkedStep(c: Part, fields: seq<FieldPart>, k: nat)
    requires k < |fields|
    ensures var m := Marked(c, fields[..k]);
            Marked(c, fields[..k + 1]) ==
              if m.FieldRef? && Matches(m.fp, fields[k]) then FieldRef(m.fp.(suffix := Separator)) else m
  {
    if c.FieldRef? {
      MatchedByAnyStep(c.fp, fields, k);
    }
  }

  /** The state of MarkAll after the requested fields `fs`. */
  ghost predicate MarkedState(children: seq<Part>, isSealed: bool, fs: seq<FieldPart>,
                        kids: seq<Part>, unused: set<nat>) {
    |kids| == |children| + |Appended(children, isSealed, fs)| &&
    (forall i :: 0 <= i < |children| ==> kids[i] == Marked(children[i], fs)) &&
    (forall i :: |children| <= i < |kids| ==>
       kids[i] == FieldRef(Appended(children, isSealed, fs)[i - |children|])) &&
    (forall i: nat :: i in unused <==>
       i < |children| && children[i].FieldRef? && !MatchedByAny(children[i].fp, fs))
  }

  /** One turn of MarkAll's loop: mark the parts requested field `k` matches,
      and append it when none does and the group is not sealed. */
  method MarkStep(children: seq<Part>, isSealed: bool, fields: seq<FieldPart>, k: nat,
                  kids: seq<Part>, unused: set<nat>)
    returns (kids': seq<Part>, unused': set<nat>)
    requires k < |fields| && MarkedState(children, isSealed, fields[..k], kids, unused)
    ensures MarkedState(children, isSealed, fields[..k + 1], kids', unused')
  {
    var g := fields[k];
    ghost var prev := Appended(children, isSealed, fields[..k]);
    ghost var next := Appended(children, isSealed, fields[..k + 1]);
    AppendedSuffix(children, isSealed, fields[..k]);
    MatchIgnoresSuffix(kids, children + FieldParts(prev), g);
    AppendedStep(children, isSealed, fields, k);
    var matched;
    kids', unused', matched := MarkMatches(kids, unused, g);
    forall i | 0 <= i < |children|
      ensures kids'[i] == Marked(children[i], fields[..k + 1])
    {
      MarkedStep(children[i], fields, k);
    }
    forall i: nat | i < |children| && children[i].FieldRef?
      ensures i in unused' <==> !MatchedByAny(children[i].fp, fields[..k + 1])
    {
      MatchedByAnyStep(children[i].fp, fields, k);
    }
    forall i | |children| <= i < |kids|
      ensures kids'[i] == kids[i]
    {
      assert kids[i] == FieldRef(prev[i - |children|]);
    }
    if !matched && !isSealed {
      kids' := kids' + [FieldRef(g.(suffix := Separator))];
      assert next == prev + [g.(suffix := Separator)];
    } else {
      assert next == prev;
    }
  }

  /** The loop over the requested fields: every field part matched by a
      requested field gets ", " and leaves the unused list; a requested field
      nothing matches is appended unless the group is sealed. */
  method MarkAll(children: seq<Part>, isSealed: bool, fields: seq<FieldPart>)
    returns (kids: seq<Part>, unused: set<nat>)
    ensures |kids| == |children| + |Appended(children, isSealed, fields)|
    ensures forall i :: 0 <= i < |children| ==> kids[i] == Marked(children[i], fields)
    ensures forall i :: |children| <= i < |kids| ==>
              kids[i] == FieldRef(Appended(children, isSealed, fields)[i - |children|])
    ensures forall i: nat :: i in unused <==>
              i < |children| && children[i].FieldRef? && !MatchedByAny(children[i].fp, fields)
  {
    kids := children;
    unused := set i: nat | i < |children| && children[i].FieldRef?;
    assert fields[..0] == [];
    var k := 0;
    while k < |fields|
      invariant 0 <= k <= |fields|
      invariant MarkedState(children, isSealed, fields[..k], kids, unused)
    {
      kids, unused := MarkStep(children, isSealed, fields, k, kids, unused);
      k := k + 1;
    }
    assert fields[..k] == fields;
  }

  /** The loop that removes the field parts no requested field matched. */
  method RemoveUnused(children: seq<Part>, kids: seq<Part>, unused: set<nat>, fields: seq<FieldPart>)
    returns (kept: seq<Part>)
    requires |children| <= |kids|
    requires forall i :: 0 <= i < |children| ==> kids[i] == Marked(children[i], fields)
    requires forall i: nat :: i in unused <==>
               i < |children| && children[i].FieldRef? && !MatchedByAny(children[i].fp, fields)
    ensures kept == Kept(children, fields) + kids[|children|..]
  {
    kept := [];
    var i := 0;
    while i < |kids|
      invariant 0 <= i <= |kids|
      invariant i <= |children| ==> kept == Kept(children[..i], fields)
      invariant i > |children| ==> kept == Kept(children, fields) + kids[|children|..i]
    {
      if i < |children| {
        assert children[..i + 1][..i] == children[..i];
      }
      if i == |children| { assert children[..i] == children; }
      if i !in unused {
        kept := kept + [kids[i]];
      }
      i := i + 1;
    }
    if |kids| == |children| { assert children[..|children|] == children; }
  }

  /** The loop that finds the last field part and gives it " ". */
  method PunctuateLast(ps: seq<Part>) returns (r: seq<Part>)
    ensures r == Punctuated(ps)
  {
    var j := |ps|;
    while j > 0 && !ps[j - 1].FieldRef?
      invariant 0 <= j <= |ps|
      invariant forall l :: j <= l < |ps| ==> !ps[l].FieldRef?
    {
      j := j - 1;
    }
    r := ps;
    if j > 0 {
      r := ps[j - 1 := FieldRef(ps[j - 1].fp.(suffix := LastSeparator))];
    }
  }

  /** The merge of one Select group, in the source's order: look the requested
      fields up, remove the unused field parts, punctuate the last field. */
  method MergeGroup(children: seq<Part>, isSealed: bool, fields: seq<FieldPart>)
    returns (kids: seq<Part>)
    ensures kids == MergedChildren(children, isSealed, fields)
  {
    var marked, unused := MarkAll(children, isSealed, fields);
    var kept := RemoveUnused(children, marked, unused, fields);
    assert marked[|children|..] == FieldParts(Appended(children, isSealed, fields));
    kids := PunctuateLast(kept);
  }

  /** AddFieldParts: merge every top-level Select decorator of the map with the
      requested fields. */
  method AddFieldParts(queryParts: PartsMap, fields: seq<FieldPart>)
    modifies queryParts
    ensures queryParts.parts == MergedSelect(old(queryParts.parts), fields)
  {
    ghost var original := queryParts.parts;
    var i := 0;
    while i < |queryParts.parts|
      invariant 0 <= i <= |queryParts.parts| == |original|
      invariant forall j :: 0 <= j < i ==> queryParts.parts[j] == MergedPart(original[j], fields)
      invariant forall j :: i <= j < |original| ==> queryParts.parts[j] == original[j]
    {
      var p := queryParts.parts[i];
      assert p == original[i];
      if p.Decorator? && p.op == Select {
        var kids := MergeGroup(p.children, p.isSealed, fields);
        queryParts.parts := queryParts.parts[i := p.(children := kids)];
      }
      assert queryParts.parts[i] == MergedPart(original[i], fields);
      i := i + 1;
    }
    assert queryParts.parts == MergedSelect(original, fields);
  }

  // ---------------------------------------------------------------------------
  // Properties of the merge
  // ---------------------------------------------------------------------------

  /** The merge keeps the map's length and every part but the top-level Select
      decorators, which keep their tag, ID and sealing and take the merged
      children. */
  lemma MergedSelectShape(ps: seq<Part>, fields: seq<FieldPart>)
    ensures |MergedSelect(ps, fields)| == |ps|
    ensures forall i :: 0 <= i < |ps| && !(ps[i].Decorator? && ps[i].op == Select) ==>
              MergedSelect(ps, fields)[i] == ps[i]
    ensures forall i :: 0 <= i < |ps| && ps[i].Decorator? && ps[i].op == Select ==>
              MergedSelect(ps, fields)[i] ==
                Decorator(Select, ps[i].id, ps[i].isSealed, MergedChildren(ps[i].children, ps[i].isSealed, fields))
  {
  }

  /** An appended field matched no part of the group, nor any field appended
      before it, and is a requested field punctuated ", ". */
  lemma {:induction false} AppendedAreUnmatched(children: seq<Part>, isSealed: bool, fields: seq<FieldPart>)
    ensures forall k :: 0 <= k < |Appended(children, isSealed, fields)| ==>
              var a := Appended(children, isSealed, fields);
              !AnyFieldMatches(children + FieldParts(a[..k]), a[k])
    ensures forall k :: 0 <= k < |Appended(children, isSealed, fields)| ==>
              Appended(children, isSealed, fields)[k] in WithSeparator(fields)
    decreases |fields|
  {
    if |fields| > 0 {
      var n := |fields| - 1;
      var prev := Appended(children, isSealed, fields[..n]);
      AppendedAreUnmatched(children, isSealed, fields[..n]);
      var a := Appended(children, isSealed, fields);
      forall k | 0 <= k < |a| ensures !AnyFieldMatches(children + FieldParts(a[..k]), a[k]) {
        if k < |prev| {
          assert a[..k] == prev[..k];
        } else {
          assert a[..k] == prev;
          MatchIgnoresTarget(children + FieldParts(prev), fields[n], a[k]);
        }
      }
      forall k | 0 <= k < |a| ensures a[k] in WithSeparator(fields) {
        if k < |prev| {
          var m :| 0 <= m < n && prev[k] == WithSeparator(fields[..n])[m];
          assert WithSeparator(fields[..n])[m] == WithSeparator(fields)[m];
        } else {
          assert a == prev + [fields[n].(suffix := Separator)];
          assert a[k] == WithSeparator(fields)[n];
        }
      }
    }
  }

  /** Whether something matches a requested field depends only on its name. */
  lemma MatchIgnoresTarget(ps: seq<Part>, g: FieldPart, h: FieldPart)
    requires g.field == h.field
    ensures AnyFieldMatches(ps, g) <==> AnyFieldMatches(ps, h)
  {
    if AnyFieldMatches(ps, g) {
      var j :| 0 <= j < |ps| && ps[j].FieldRef? && Matches(ps[j].fp, g);
      assert Matches(ps[j].fp, h);
    }
    if AnyFieldMatches(ps, h) {
      var j :| 0 <= j < |ps| && ps[j].FieldRef? && Matches(ps[j].fp, h);
      assert Matches(ps[j].fp, g);
    }
  }

  /** A sealed group gains no field: it keeps only what it had, re-punctuated. */
  lemma {:induction false} SealedAddsNothing(children: seq<Part>, fields: seq<FieldPart>)
    ensures Appended(children, true, fields) == []
    ensures MergedChildren(children, true, fields) == Punctuated(Kept(children, fields))
    decreases |fields|
  {
    if |fields| > 0 {
      SealedAddsNothing(children, fields[..|fields| - 1]);
    }
    assert Kept(children, fields) + FieldParts([]) == Kept(children, fields);
  }

  function WithSeparator(fs: seq<FieldPart>): (r: seq<FieldPart>)
    ensures |r| == |fs| && forall i :: 0 <= i < |fs| ==> r[i] == fs[i].(suffix := Separator)
  {
    seq(|fs|, i requires 0 <= i < |fs| => fs[i].(suffix := Separator))
  }

  /** The requested fields no part of the group matches, in order. */
  function Unmatched(children: seq<Part>, fields: seq<FieldPart>): (r: seq<FieldPart>)
    ensures |r| <= |fields|
    decreases |fields|
  {
    if |fields| == 0 then []
    else
      var prev := Unmatched(children, fields[..|fields| - 1]);
      var g := fields[|fields| - 1];
      if AnyFieldMatches(children, g) then prev else prev + [g]
  }

  /** Each field Unmatched keeps is a requested one, from the first `n`. */
  lemma {:induction false} UnmatchedFrom(children: seq<Part>, fields: seq<FieldPart>, k: nat)
    requires k < |Unmatched(children, fields)|
    ensures exists m :: 0 <= m < |fields| && Unmatched(children, fields)[k] == fields[m]
    decreases |fields|
  {
    var n := |fields| - 1;
    var prev := Unmatched(children, fields[..n]);
    if k < |prev| {
      UnmatchedFrom(children, fields[..n], k);
      var m :| 0 <= m < n && prev[k] == fields[..n][m];
      assert Unmatched(children, fields)[k] == fields[m];
    } else {
      assert Unmatched(children, fields)[k] == fields[n];
    }
  }

  /** In an unsealed group whose requested fields do not match one another,
      the fields appended are exactly the requested fields no part of the
      group matches, in the order requested, each with ", ". */
  lemma {:induction false} UnsealedAppendsInOrder(children: seq<Part>, fields: seq<FieldPart>)
    requires forall m1, m2 :: 0 <= m1 < m2 < |fields| ==> !Matches(fields[m1], fields[m2])
    ensures Appended(children, false, fields) == WithSeparator(Unmatched(children, fields))
    decreases |fields|
  {
    if |fields| > 0 {
      var n := |fields| - 1;
      var g := fields[n];
      UnsealedAppendsInOrder(children, fields[..n]);
      var u := Unmatched(children, fields[..n]);
      var prev := Appended(children, false, fields[..n]);
      assert prev == WithSeparator(u);
      EarlierMissLast(children, fields);
      AnyFieldMatchesAppend(children, FieldParts(prev), g);
      if !AnyFieldMatches(children, g) {
        assert WithSeparator(u + [g]) == WithSeparator(u) + [g.(suffix := Separator)];
      }
    }
  }

  /** No field kept from the first requested fields matches the last one. */
  lemma EarlierMissLast(children: seq<Part>, fields: seq<FieldPart>)
    requires |fields| > 0
    requires forall m1, m2 :: 0 <= m1 < m2 < |fields| ==> !Matches(fields[m1], fields[m2])
    ensures var n := |fields| - 1;
            var ps := children + FieldParts(WithSeparator(Unmatched(children, fields[..n])));
            forall j :: |children| <= j < |ps| ==> ps[j].FieldRef? && !Matches(ps[j].fp, fields[n])
  {
    var n := |fields| - 1;
    var u := Unmatched(children, fields[..n]);
    var ps := children + FieldParts(WithSeparator(u));
    forall j | |children| <= j < |ps| ensures ps[j].FieldRef? && !Matches(ps[j].fp, fields[n]) {
      var k := j - |children|;
      assert ps[j] == FieldRef(u[k].(suffix := Separator));
      UnmatchedFrom(children, fields[..n], k);
      var m :| 0 <= m < n && u[k] == fields[..n][m];
      assert !Matches(fields[m], fields[n]);
    }
  }

  /** A match in `a + b` where no field part of `b` matches is a match in `a`. */
  lemma AnyFieldMatchesAppend(a: seq<Part>, b: seq<Part>, g: FieldPart)
    requires forall j :: |a| <= j < |a + b| ==> (a + b)[j].FieldRef? && !Matches((a + b)[j].fp, g)
    ensures AnyFieldMatches(a + b, g) <==> AnyFieldMatches(a, g)
  {
    if AnyFieldMatches(a + b, g) {
      var j :| 0 <= j < |a + b| && (a + b)[j].FieldRef? && Matches((a + b)[j].fp, g);
      assert j < |a| && a[j] == (a + b)[j];
    }
    if AnyFieldMatches(a, g) {
      var j :| 0 <= j < |a| && a[j].FieldRef? && Matches(a[j].fp, g);
      assert (a + b)[j] == a[j];
    }
  }

  /** Every field part left from the group was matched by a requested field and
      is one of the group's own field parts with ", ". */
  lemma {:induction false} KeptFieldsMatched(children: seq<Part>, fields: seq<FieldPart>)
    ensures forall x :: x in Kept(children, fields) && x.FieldRef? ==>
              exists j :: 0 <= j < |children| && children[j].FieldRef? &&
                MatchedByAny(children[j].fp, fields) &&
                x == FieldRef(children[j].fp.(suffix := Separator))
    decreases |children|
  {
    if |children| > 0 {
      var n := |children| - 1;
      KeptFieldsMatched(children[..n], fields);
      forall x | x in Kept(children, fields) && x.FieldRef?
        ensures exists j :: 0 <= j < |children| && children[j].FieldRef? &&
                  MatchedByAny(children[j].fp, fields) &&
                  x == FieldRef(children[j].fp.(suffix := Separator))
      {
        if x in Kept(children[..n], fields) {
          var j :| 0 <= j < n && children[..n][j].FieldRef? &&
                   MatchedByAny(children[..n][j].fp, fields) &&
                   x == FieldRef(children[..n][j].fp.(suffix := Separator));
          assert children[j] == children[..n][j];
        } else {
          assert x in Piece(children[n], fields);
        }
      }
    }
  }

  /** Every field part of the group matched by a requested field stays, with ", ". */
  lemma {:induction false} MatchedFieldsKept(children: seq<Part>, fields: seq<FieldPart>)
    ensures forall j :: 0 <= j < |children| && children[j].FieldRef? && MatchedByAny(children[j].fp, fields) ==>
              FieldRef(children[j].fp.(suffix := Separator)) in Kept(children, fields)
    decreases |children|
  {
    if |children| > 0 {
      var n := |children| - 1;
      MatchedFieldsKept(children[..n], fields);
      forall j | 0 <= j < |children| && children[j].FieldRef? && MatchedByAny(children[j].fp, fields)
        ensures FieldRef(children[j].fp.(suffix := Separator)) in Kept(children, fields)
      {
        if j < n {
          assert children[..n][j] == children[j];
        } else {
          assert Piece(children[n], fields) == [FieldRef(children[j].fp.(suffix := Separator))];
        }
      }
    }
  }

  /** The parts of a sequence that are not field parts. */
  function NonFields(ps: seq<Part>): (r: seq<Part>)
    ensures forall x :: x in r ==> x in ps && !x.FieldRef?
    decreases |ps|
  {
    if |ps| == 0 then []
    else NonFields(ps[..|ps| - 1]) + (if ps[|ps| - 1].FieldRef? then [] else [ps[|ps| - 1]])
  }

  lemma {:induction false} NonFieldsAppend(a: seq<Part>, b: seq<Part>)
    ensures NonFields(a + b) == NonFields(a) + NonFields(b)
    decreases |b|
  {
    if |b| > 0 {
      var n := |b| - 1;
      var tail := if b[n].FieldRef? then [] else [b[n]];
      assert (a + b)[..|a + b| - 1] == a + b[..n];
      assert (a + b)[|a + b| - 1] == b[n];
      assert NonFields(a + b) == NonFields(a + b[..n]) + tail;
      assert NonFields(b) == NonFields(b[..n]) + tail;
      NonFieldsAppend(a, b[..n]);
      assert NonFields(a + b) == (NonFields(a) + NonFields(b[..n])) + tail;
    } else {
      assert a + b == a;
    }
  }

  /** The parts of a group that are not fields all stay, in their order. */
  lemma {:induction false} KeptKeepsOthers(children: seq<Part>, fields: seq<FieldPart>)
    ensures NonFields(Kept(children, fields)) == NonFields(children)
    decreases |children|
  {
    if |children| > 0 {
      var n := |children| - 1;
      KeptKeepsOthers(children[..n], fields);
      NonFieldsAppend(Kept(children[..n], fields), Piece(children[n], fields));
      var piece := Piece(children[n], fields);
      if |piece| == 1 {
        assert piece[..0] == [];
      }
    }
  }

  /** Punctuation changes only the suffix of the last field part. */
  lemma PunctuatedShape(ps: seq<Part>)
    requires forall i :: 0 <= i < |ps| && ps[i].FieldRef? ==> ps[i].fp.suffix == Separator
    ensures |Punctuated(ps)| == |ps|
    ensures forall i :: 0 <= i < |ps| && !ps[i].FieldRef? ==> Punctuated(ps)[i] == ps[i]
    ensures forall i :: 0 <= i < |ps| && ps[i].FieldRef? ==>
              Punctuated(ps)[i] == FieldRef(ps[i].fp.(suffix :=
                if forall j :: i < j < |ps| ==> !ps[j].FieldRef? then LastSeparator else Separator))
  {
    var r := Punctuated(ps);
    match LastField(ps)
    case None =>
    case Some(l) =>
      forall i | 0 <= i < |ps| && ps[i].FieldRef?
        ensures r[i] == FieldRef(ps[i].fp.(suffix :=
                  if forall j :: i < j < |ps| ==> !ps[j].FieldRef? then LastSeparator else Separator))
      {
        if i < l {
          assert !(forall j :: i < j < |ps| ==> !ps[j].FieldRef?) by { assert ps[l].FieldRef?; }
        }
      }
  }

  /** After the merge, the last field part of the group has " " and every
      other field part has ", ". */
  lemma MergedPunctuation(children: seq<Part>, isSealed: bool, fields: seq<FieldPart>)
    ensures var r := MergedChildren(children, isSealed, fields);
      forall i :: 0 <= i < |r| && r[i].FieldRef? ==>
        r[i].fp.suffix == (if forall j :: i < j < |r| ==> !r[j].FieldRef? then LastSeparator else Separator)
  {
    var kept := Kept(children, fields);
    var a := Appended(children, isSealed, fields);
    var ps := kept + FieldParts(a);
    KeptFieldsMatched(children, fields);
    AppendedSuffix(children, isSealed, fields);
    forall i | 0 <= i < |ps| && ps[i].FieldRef? ensures ps[i].fp.suffix == Separator {
      if i < |kept| {
        assert ps[i] in kept;
      } else {
        assert ps[i] == FieldRef(a[i - |kept|]);
      }
    }
    PunctuatedShape(ps);
  }
}
