/** ConnectionStringFactory: reading and replacing the database (catalog) name
    inside a connection string, by trying a fixed, ordered list of patterns. */
module ConnectionStringFactory {
  import opened Wrappers
  import opened Text

  /** The spellings of the catalog key, in the order they are tried. */
  const CatalogPatterns: seq<string> := [
    "Initial Catalog =",
    "initial iatalog =",
    "initial iatalog=",
    "Database =",
    "Database=",
    "database =",
    "database=",
    "Data Source =",
    "Data Source=",
    "data dource =",
    "data source="
  ]

  /** What every catalog pattern looks like: non-empty, ending in '=', with no
      ';'. */
  predicate WellFormedPattern(p: string) {
    |p| > 0 && p[|p| - 1] == '=' && ';' !in p
  }

  /** Every pattern of a list is well formed. */
  predicate AllWellFormed(ps: seq<string>) {
    forall k :: 0 <= k < |ps| ==> WellFormedPattern(ps[k])
  }

  lemma CatalogPatternsWellFormed()
    ensures AllWellFormed(CatalogPatterns)
  {
  }

  // ---------------------------------------------------------------------------
  // The regular expression "{pattern}([^;]*);"
  //
  // The catalog patterns hold only letters, blanks and '=', so the expression is
  // the literal pattern, then the longest run of non-';' characters, then ';'.
  // A match therefore starts where the pattern occurs with some ';' after it,
  // and ends just past the first ';' that follows the pattern.
  // ---------------------------------------------------------------------------

  /** The expression matches `s` at index `i`. */
  predicate MatchesAt(p: string, s: string, i: nat) {
    OccursAt(p, s, i) && IndexOfCharFrom(s, ';', i + |p|).Some?
  }

  /** The leftmost match at or after `k`, as (start, end); `s[start..end]` is the
      matched text (Regex.Match). */
  function RegexMatchFrom(p: string, s: string, k: nat): (r: Option<(nat, nat)>)
    decreases |s| - k
    ensures r.Some? ==> k <= r.value.0 && MatchesAt(p, s, r.value.0)
    ensures r.Some? ==> r.value.1 == IndexOfCharFrom(s, ';', r.value.0 + |p|).value + 1
    ensures r.Some? ==> r.value.0 < r.value.1 <= |s|
    ensures r.Some? ==> forall j: nat :: k <= j < r.value.0 ==> !MatchesAt(p, s, j)
    ensures r.None? ==> forall j: nat :: k <= j ==> !MatchesAt(p, s, j)
  {
    if k + |p| > |s| then None
    else if MatchesAt(p, s, k) then Some((k, IndexOfCharFrom(s, ';', k + |p|).value + 1))
    else RegexMatchFrom(p, s, k + 1)
  }

  /** Every match of `p` in `s` replaced by `repl`, scanning left to right
      (Regex.Replace, with the replacement taken literally). */
  function ReplaceMatches(p: string, s: string, repl: string): string
    decreases |s|
  {
    var m := RegexMatchFrom(p, s, 0);
    if m.None? then s
    else s[..m.value.0] + repl + ReplaceMatches(p, s[m.value.1..], repl)
  }

  // ---------------------------------------------------------------------------
  // GetDatabase
  // ---------------------------------------------------------------------------

  /** First loop of GetDatabase: the patterns `ps`, each tried as a regular
      expression; the matched text minus the pattern and the ';'. */
  function DatabaseFromMatch(ps: seq<string>, cs: string): Option<string>
    requires AllWellFormed(ps)
  {
    if |ps| == 0 then None
    else
      var m := RegexMatchFrom(ps[0], cs, 0);
      if m.Some? then Some(RemoveAll(RemoveAll(cs[m.value.0..m.value.1], ps[0]), ";"))
      else DatabaseFromMatch(ps[1..], cs)
  }

  /** Second loop of GetDatabase: the text after the first occurrence of the
      first pattern of `ps` that occurs at all. */
  function DatabaseFromIndex(ps: seq<string>, cs: string): Option<string>
  {
    if |ps| == 0 then None
    else
      var i := IndexOfFrom(cs, ps[0], 0);
      if i.Some? then Some(cs[i.value + |ps[0]|..])
      else DatabaseFromIndex(ps[1..], cs)
  }

  /** The database named in a connection string, or None when no catalog pattern
      occurs in it. */
  function GetDatabase(cs: string): (r: Option<string>)
    ensures r.None? <==> forall k :: 0 <= k < |CatalogPatterns| ==> !Contains(cs, CatalogPatterns[k])
  {
    CatalogPatternsWellFormed();
    NoDatabaseIffNoPattern(CatalogPatterns, cs);
    match DatabaseFromMatch(CatalogPatterns, cs)
    case Some(v) => Some(v)
    case None => DatabaseFromIndex(CatalogPatterns, cs)
  }

  // ---------------------------------------------------------------------------
  // SetDatabase
  // ---------------------------------------------------------------------------

  /** First loop of SetDatabase: the first pattern of `ps` with a regex match has
      every match replaced by "{pattern}{database};". */
  function DatabaseSetByMatch(db: string, ps: seq<string>, cs: string): Option<string>
  {
    if |ps| == 0 then None
    else if RegexMatchFrom(ps[0], cs, 0).Some? then Some(ReplaceMatches(ps[0], cs, ps[0] + db + ";"))
    else DatabaseSetByMatch(db, ps[1..], cs)
  }

  /** Second loop of SetDatabase: the text up to the end of the first occurrence
      of the first pattern that occurs, followed by the database. */
  function DatabaseSetByIndex(db: string, ps: seq<string>, cs: string): Option<string>
  {
    if |ps| == 0 then None
    else
      var i := IndexOfFrom(cs, ps[0], 0);
      if i.Some? then Some(cs[..i.value + |ps[0]|] + db)
      else DatabaseSetByIndex(db, ps[1..], cs)
  }

  /** The connection string naming database `db`; unchanged when no catalog
      pattern occurs in it. */
  function SetDatabase(db: string, cs: string): (r: string)
    ensures (forall k :: 0 <= k < |CatalogPatterns| ==> !Contains(cs, CatalogPatterns[k])) ==> r == cs
  {
    NoSetIffNoPattern(db, CatalogPatterns, cs);
    match DatabaseSetByMatch(db, CatalogPatterns, cs)
    case Some(v) => v
    case None =>
      match DatabaseSetByIndex(db, CatalogPatterns, cs)
      case Some(v) => v
      case None => cs
  }

  // ---------------------------------------------------------------------------
  // When the loops find nothing
  // ---------------------------------------------------------------------------

  lemma ContainsIffIndexOf(s: string, p: string)
    ensures Contains(s, p) <==> IndexOfFrom(s, p, 0).Some?
  {
    if IndexOfFrom(s, p, 0).Some? {
      var i := IndexOfFrom(s, p, 0).value;
      assert i <= |s| && OccursAt(p, s, i);
    }
  }

  lemma MatchImpliesContains(p: string, s: string)
    requires RegexMatchFrom(p, s, 0).Some?
    ensures Contains(s, p)
  {
    var i := RegexMatchFrom(p, s, 0).value.0;
    assert i <= |s| && OccursAt(p, s, i);
  }

  /** No pattern of `ps` occurs in `cs`. */
  predicate NoneOccurs(ps: seq<string>, cs: string) {
    forall j :: 0 <= j < |ps| ==> !Contains(cs, ps[j])
  }

  lemma NoneOccursTail(ps: seq<string>, cs: string)
    requires |ps| > 0
    ensures NoneOccurs(ps, cs) <==> !Contains(cs, ps[0]) && NoneOccurs(ps[1..], cs)
  {
    if !Contains(cs, ps[0]) && NoneOccurs(ps[1..], cs) {
      forall j | 0 < j < |ps| ensures !Contains(cs, ps[j]) {
        assert ps[j] == ps[1..][j - 1];
      }
    }
  }

  lemma {:induction false} NoIndexIffNoPattern(ps: seq<string>, cs: string)
    ensures DatabaseFromIndex(ps, cs).None? <==> NoneOccurs(ps, cs)
  {
    if |ps| > 0 {
      ContainsIffIndexOf(cs, ps[0]);
      NoneOccursTail(ps, cs);
      NoIndexIffNoPattern(ps[1..], cs);
    }
  }

  lemma {:induction false} NoMatchBeforeNoIndex(ps: seq<string>, cs: string)
    requires AllWellFormed(ps) && NoneOccurs(ps, cs)
    ensures DatabaseFromMatch(ps, cs).None?
  {
    if |ps| > 0 {
      if RegexMatchFrom(ps[0], cs, 0).Some? {
        MatchImpliesContains(ps[0], cs);
      }
      NoneOccursTail(ps, cs);
      NoMatchBeforeNoIndex(ps[1..], cs);
    }
  }

  lemma NoDatabaseIffNoPattern(ps: seq<string>, cs: string)
    requires AllWellFormed(ps)
    ensures (DatabaseFromMatch(ps, cs).None? && DatabaseFromIndex(ps, cs).None?) <==> NoneOccurs(ps, cs)
  {
    NoIndexIffNoPattern(ps, cs);
    if NoneOccurs(ps, cs) {
      NoMatchBeforeNoIndex(ps, cs);
    }
  }

  lemma {:induction false} NoSetIffNoPattern(db: string, ps: seq<string>, cs: string)
    ensures (DatabaseSetByMatch(db, ps, cs).None? && DatabaseSetByIndex(db, ps, cs).None?) <==>
            NoneOccurs(ps, cs)
  {
    if |ps| > 0 {
      ContainsIffIndexOf(cs, ps[0]);
      if RegexMatchFrom(ps[0], cs, 0).Some? {
        MatchImpliesContains(ps[0], cs);
      }
      NoneOccursTail(ps, cs);
      NoSetIffNoPattern(db, ps[1..], cs);
    }
  }

  // ---------------------------------------------------------------------------
  // Round trip: GetDatabase(SetDatabase(db, cs)) == db
  // ---------------------------------------------------------------------------

  /** A database name that the round trip preserves: no ';' (it would end the
      value), no '$' (Regex.Replace would read it as a substitution) and no '='
      (every catalog pattern ends in '=', so the name cannot complete a new
      pattern occurrence). */
  predicate PlainDatabaseName(db: string) {
    ';' !in db && '$' !in db && '=' !in db
  }

  lemma SemicolonFollows(s: string, k: nat, x: nat)
    requires k <= x < |s| && s[x] == ';'
    ensures IndexOfCharFrom(s, ';', k).Some?
  {
  }

  lemma FirstSemicolon(s: string, k: nat, x: nat)
    requires k <= x < |s| && s[x] == ';'
    requires forall y :: k <= y < x ==> s[y] != ';'
    ensures IndexOfCharFrom(s, ';', k) == Some(x)
  {
  }

  /** A match in a suffix is a match in the whole string, and back. */
  lemma MatchShift(q: string, s: string, e: nat, j: nat)
    requires e <= |s|
    ensures MatchesAt(q, s[e..], j) <==> MatchesAt(q, s, e + j)
  {
    var t := s[e..];
    if OccursAt(q, t, j) || OccursAt(q, s, e + j) {
      assert t[j..j + |q|] == s[e + j..e + j + |q|];
    }
    if OccursAt(q, t, j) && IndexOfCharFrom(t, ';', j + |q|).Some? {
      var x := IndexOfCharFrom(t, ';', j + |q|).value;
      SemicolonFollows(s, e + j + |q|, e + x);
    }
    if OccursAt(q, s, e + j) && IndexOfCharFrom(s, ';', e + j + |q|).Some? {
      var x := IndexOfCharFrom(s, ';', e + j + |q|).value;
      SemicolonFollows(t, j + |q|, x - e);
    }
  }

  /** Inside a kept prefix, occurrences are those of the original string. */
  lemma OccursInKeptPrefix(q: string, s: string, n: nat, t: string, j: nat)
    requires n <= |s| && j + |q| <= n
    ensures OccursAt(q, s[..n] + t, j) <==> OccursAt(q, s, j)
  {
    assert (s[..n] + t)[j..j + |q|] == s[j..j + |q|];
  }

  /** Inside a kept prefix, a match is a match of the original string, given a
      ';' of the original after the prefix. */
  lemma MatchInKeptPrefix(q: string, s: string, n: nat, sc: nat, t: string, r: string, j: nat)
    requires n <= sc < |s| && s[sc] == ';' && r == s[..n] + t && j + |q| <= n
    ensures MatchesAt(q, r, j) ==> MatchesAt(q, s, j)
  {
    OccursInKeptPrefix(q, s, n, t, j);
    if OccursAt(q, s, j) {
      SemicolonFollows(s, j + |q|, sc);
    }
  }

  /** The characters an occurrence of a catalog pattern covers: no ';', and '='
      at its end. */
  lemma PatternOccurrence(q: string, r: string, j: nat)
    requires WellFormedPattern(q) && OccursAt(q, r, j)
    ensures forall x :: j <= x < j + |q| ==> r[x] != ';'
    ensures r[j + |q| - 1] == '='
  {
    forall x | j <= x < j + |q| ensures r[x] == q[x - j] {
      assert r[j..j + |q|][x - j] == r[x];
    }
  }

  /** A catalog pattern does not occur in text without '='. */
  lemma NoOccurrenceWithoutEquals(q: string, t: string)
    requires WellFormedPattern(q) && '=' !in t
    ensures forall j: nat :: !OccursAt(q, t, j)
  {
    forall j: nat ensures !OccursAt(q, t, j) {
      if j + |q| <= |t| {
        assert t[j..j + |q|][|q| - 1] == t[j + |q| - 1];
      }
    }
  }

  /** The text ReplaceMatches builds around the first match. */
  lemma ReplacedForm(p: string, db: string, s: string, i: nat, e: nat)
    requires RegexMatchFrom(p, s, 0) == Some((i, e))
    ensures i + |p| < e && s[e - 1] == ';'
    ensures ReplaceMatches(p, s, p + db + ";") ==
            s[..i + |p|] + (db + ";" + ReplaceMatches(p, s[e..], p + db + ";"))
  {
    var repl := p + db + ";";
    var rest := ReplaceMatches(p, s[e..], repl);
    var semi := IndexOfCharFrom(s, ';', i + |p|).value;
    assert e == semi + 1 && i + |p| <= semi && s[semi] == ';';
    assert ReplaceMatches(p, s, repl) == s[..i] + repl + rest;
    ReplacedAround(s, i, p, db, rest);
  }

  /** Putting "{p}{db};" back where `p` occurs keeps `p` in place. */
  lemma ReplacedAround(s: string, i: nat, p: string, db: string, rest: string)
    requires OccursAt(p, s, i)
    ensures s[..i] + (p + db + ";") + rest == s[..i + |p|] + (db + ";" + rest)
  {
    assert s[..i + |p|] == s[..i] + s[i..i + |p|];
    assert s[..i] + (p + db + ";") + rest == (s[..i] + p) + (db + ";" + rest);
  }

  /** A match of `q` in `s[..n] + "{db};" + rest` is a match in `s` or in `rest`. */
  lemma MatchInSplice(q: string, s: string, n: nat, sc: nat, db: string, rest: string, r: string, j: nat)
    requires WellFormedPattern(q) && PlainDatabaseName(db)
    requires n <= sc < |s| && s[sc] == ';'
    requires r == s[..n] + (db + ";" + rest)
    ensures MatchesAt(q, r, j) ==>
              MatchesAt(q, s, j) || (j >= n + |db| + 1 && MatchesAt(q, rest, j - (n + |db| + 1)))
  {
    var a := n + |db| + 1;
    if MatchesAt(q, r, j) {
      if j >= a {
        assert r[a..] == rest;
        MatchShift(q, r, a, j - a);
      } else {
        PatternOccurrence(q, r, j);
        assert r[a - 1] == ';';
        assert j + |q| <= a - 1;
        forall x | n <= x < a - 1 ensures r[x] != '=' {
          assert r[x] == db[x - n];
        }
        assert j + |q| <= n;
        MatchInKeptPrefix(q, s, n, sc, db + ";" + rest, r, j);
      }
    }
  }

  /** Replacing the matches of `p` by "{p}{db};" creates no match of a pattern
      `q` that had none. */
  lemma {:induction false} NoMatchAfterReplace(q: string, p: string, db: string, s: string)
    requires WellFormedPattern(q) && PlainDatabaseName(db)
    requires forall j: nat :: !MatchesAt(q, s, j)
    ensures forall j: nat :: !MatchesAt(q, ReplaceMatches(p, s, p + db + ";"), j)
    decreases |s|
  {
    match RegexMatchFrom(p, s, 0)
    case None =>
    case Some((i, e)) =>
      ReplacedForm(p, db, s, i, e);
      forall j: nat ensures !MatchesAt(q, s[e..], j) {
        MatchShift(q, s, e, j);
      }
      NoMatchAfterReplace(q, p, db, s[e..]);
      var rest := ReplaceMatches(p, s[e..], p + db + ";");
      var r := s[..i + |p|] + (db + ";" + rest);
      forall j: nat ensures !MatchesAt(q, r, j) {
        MatchInSplice(q, s, i + |p|, e - 1, db, rest, r, j);
      }
  }

  /** The first ';' at or after the end of `u` in `u + "{db};" + rest`. */
  lemma SemicolonAfterName(u: string, db: string, rest: string, r: string)
    requires PlainDatabaseName(db) && r == u + (db + ";" + rest)
    ensures IndexOfCharFrom(r, ';', |u|) == Some(|u| + |db|)
    ensures r[|u|..|u| + |db| + 1] == db + ";"
  {
    var n := |u|;
    forall x | n <= x < n + |db| ensures r[x] != ';' {
      assert r[x] == db[x - n];
    }
    assert r[n + |db|] == ';';
    FirstSemicolon(r, n, n + |db|);
    assert r[n..n + |db| + 1] == db + ";";
  }

  /** A leftmost match: the unique start where `p` matches with no match before. */
  lemma LeftmostMatch(p: string, r: string, i: nat)
    requires MatchesAt(p, r, i)
    requires forall j: nat :: j < i ==> !MatchesAt(p, r, j)
    ensures RegexMatchFrom(p, r, 0) == Some((i, IndexOfCharFrom(r, ';', i + |p|).value + 1))
  {
  }

  /** In `s[..i + |p|] + "{db};" + rest`, the first match of `p` is at `i` and
      ends just past the ';' after `db`. */
  lemma MatchInSpliced(p: string, db: string, s: string, i: nat, sc: nat, rest: string, r: string)
    requires WellFormedPattern(p) && PlainDatabaseName(db)
    requires OccursAt(p, s, i) && i + |p| <= sc < |s| && s[sc] == ';'
    requires forall j: nat :: j < i ==> !MatchesAt(p, s, j)
    requires r == s[..i + |p|] + (db + ";" + rest)
    ensures RegexMatchFrom(p, r, 0) == Some((i, i + |p| + |db| + 1))
  {
    var n := i + |p|;
    var t := db + ";" + rest;
    SemicolonAfterName(s[..n], db, rest, r);
    OccursInKeptPrefix(p, s, n, t, i);
    forall j: nat | j < i ensures !MatchesAt(p, r, j) {
      MatchInKeptPrefix(p, s, n, sc, t, r, j);
    }
    LeftmostMatch(p, r, i);
  }

  /** The replacement text sits at the match. */
  lemma ReplacementText(p: string, db: string, s: string, i: nat, rest: string, r: string)
    requires PlainDatabaseName(db) && OccursAt(p, s, i)
    requires r == s[..i + |p|] + (db + ";" + rest)
    ensures r[i..i + |p| + |db| + 1] == p + db + ";"
  {
    var n := i + |p|;
    SemicolonAfterName(s[..n], db, rest, r);
    assert r[i..n] == s[i..n];
    assert r[i..n + |db| + 1] == r[i..n] + r[n..n + |db| + 1];
  }

  /** After replacing, the first match of `p` is the first replacement. */
  lemma FirstMatchAfterReplace(p: string, db: string, s: string, i: nat, e: nat)
    requires WellFormedPattern(p) && PlainDatabaseName(db)
    requires RegexMatchFrom(p, s, 0) == Some((i, e))
    ensures var r := ReplaceMatches(p, s, p + db + ";");
            RegexMatchFrom(p, r, 0) == Some((i, i + |p| + |db| + 1)) &&
            r[i..i + |p| + |db| + 1] == p + db + ";"
  {
    ReplacedForm(p, db, s, i, e);
    var rest := ReplaceMatches(p, s[e..], p + db + ";");
    var r := ReplaceMatches(p, s, p + db + ";");
    assert OccursAt(p, s, i);
    MatchInSpliced(p, db, s, i, e - 1, rest, r);
    ReplacementText(p, db, s, i, rest, r);
  }

  /** The value GetDatabase extracts from the text "{p}{db};". */
  lemma ExtractFromReplacement(p: string, db: string)
    requires WellFormedPattern(p) && PlainDatabaseName(db)
    ensures RemoveAll(RemoveAll(p + db + ";", p), ";") == db
  {
    var rest := db + ";";
    assert '=' !in rest;
    NoOccurrenceWithoutEquals(p, rest);
    assert p + db + ";" == p + rest;
    RemoveAllLeading(p, rest);
    assert OccursAt(";", rest, |db|) by { assert rest[|db|..|db| + 1] == ";"; }
    forall j: nat | j < |db| ensures !OccursAt(";", rest, j) {
      assert rest[j..j + 1][0] == db[j];
    }
    assert IndexOfFrom(rest, ";", 0) == Some(|db|);
    assert rest[..|db|] == db;
    assert rest[|db| + 1..] == "";
  }

  /** The witness of the first loop of SetDatabase: the first pattern that
      matches, whose matches are replaced. */
  lemma {:induction false} SetByMatchShape(db: string, ps: seq<string>, cs: string) returns (used: nat)
    requires DatabaseSetByMatch(db, ps, cs).Some?
    ensures used < |ps| && RegexMatchFrom(ps[used], cs, 0).Some?
    ensures forall j :: 0 <= j < used ==> RegexMatchFrom(ps[j], cs, 0).None?
    ensures DatabaseSetByMatch(db, ps, cs).value == ReplaceMatches(ps[used], cs, ps[used] + db + ";")
  {
    if RegexMatchFrom(ps[0], cs, 0).Some? {
      used := 0;
    } else {
      var u := SetByMatchShape(db, ps[1..], cs);
      used := u + 1;
      forall j | 0 < j < used ensures RegexMatchFrom(ps[j], cs, 0).None? {
        assert ps[j] == ps[1..][j - 1];
      }
    }
  }

  lemma {:induction false} RoundTripByMatch(db: string, ps: seq<string>, cs: string)
    requires PlainDatabaseName(db) && AllWellFormed(ps)
    requires DatabaseSetByMatch(db, ps, cs).Some?
    ensures DatabaseFromMatch(ps, DatabaseSetByMatch(db, ps, cs).value) == Some(db)
  {
    var p := ps[0];
    assert WellFormedPattern(p);
    var m := RegexMatchFrom(p, cs, 0);
    if m.Some? {
      FirstMatchAfterReplace(p, db, cs, m.value.0, m.value.1);
      ExtractFromReplacement(p, db);
    } else {
      var used := SetByMatchShape(db, ps[1..], cs);
      NoMatchAfterReplace(p, ps[1..][used], db, cs);
      RoundTripByMatch(db, ps[1..], cs);
    }
  }

  lemma {:induction false} SetByMatchNone(db: string, ps: seq<string>, cs: string)
    requires DatabaseSetByMatch(db, ps, cs).None?
    ensures forall j :: 0 <= j < |ps| ==> RegexMatchFrom(ps[j], cs, 0).None?
  {
    if |ps| > 0 {
      SetByMatchNone(db, ps[1..], cs);
      forall j | 0 < j < |ps| ensures RegexMatchFrom(ps[j], cs, 0).None? {
        assert ps[j] == ps[1..][j - 1];
      }
    }
  }

  /** The witness of the fallback of SetDatabase: the first pattern that
      occurs, and its first occurrence. */
  lemma {:induction false} SetByIndexShape(db: string, ps: seq<string>, cs: string) returns (used: nat, at: nat)
    requires DatabaseSetByIndex(db, ps, cs).Some?
    ensures used < |ps|
    ensures IndexOfFrom(cs, ps[used], 0) == Some(at)
    ensures forall j :: 0 <= j < used ==> IndexOfFrom(cs, ps[j], 0).None?
    ensures DatabaseSetByIndex(db, ps, cs).value == cs[..at + |ps[used]|] + db
  {
    var i := IndexOfFrom(cs, ps[0], 0);
    if i.Some? {
      used, at := 0, i.value;
    } else {
      var u, a := SetByIndexShape(db, ps[1..], cs);
      used, at := u + 1, a;
      forall j | 0 < j < used ensures IndexOfFrom(cs, ps[j], 0).None? {
        assert ps[j] == ps[1..][j - 1];
      }
    }
  }

  /** Cutting after an occurrence of a pattern and appending `db` creates no
      match that the original did not have ... */
  lemma MatchAfterAppend(q: string, cs: string, n: nat, db: string, r: string, j: nat)
    requires PlainDatabaseName(db) && n <= |cs| && r == cs[..n] + db
    ensures MatchesAt(q, r, j) ==> MatchesAt(q, cs, j)
  {
    if MatchesAt(q, r, j) {
      var x := IndexOfCharFrom(r, ';', j + |q|).value;
      forall y | n <= y < |r| ensures r[y] != ';' {
        assert r[y] == db[y - n];
      }
      assert x < n;
      assert r[x] == cs[x];
      OccursInKeptPrefix(q, cs, n, db, j);
      SemicolonFollows(cs, j + |q|, x);
    }
  }

  /** ... and no occurrence of a catalog pattern that the original did not have. */
  lemma OccurrenceAfterAppend(q: string, cs: string, n: nat, db: string, r: string, j: nat)
    requires WellFormedPattern(q) && PlainDatabaseName(db) && n <= |cs| && r == cs[..n] + db
    ensures OccursAt(q, r, j) ==> OccursAt(q, cs, j)
  {
    if OccursAt(q, r, j) {
      PatternOccurrence(q, r, j);
      forall y | n <= y < |r| ensures r[y] != '=' {
        assert r[y] == db[y - n];
      }
      assert j + |q| <= n;
      OccursInKeptPrefix(q, cs, n, db, j);
    }
  }

  /** The first occurrence of `p` survives cutting just after it. */
  lemma IndexAfterCut(p: string, cs: string, i: nat, db: string)
    requires IndexOfFrom(cs, p, 0) == Some(i)
    ensures IndexOfFrom(cs[..i + |p|] + db, p, 0) == Some(i)
  {
    var n := i + |p|;
    OccursInKeptPrefix(p, cs, n, db, i);
    forall j: nat | j < i ensures !OccursAt(p, cs[..n] + db, j) {
      OccursInKeptPrefix(p, cs, n, db, j);
    }
  }

  lemma {:induction false} MatchNoneEverywhere(ps: seq<string>, s: string)
    requires AllWellFormed(ps)
    requires forall j :: 0 <= j < |ps| ==> forall x: nat :: !MatchesAt(ps[j], s, x)
    ensures DatabaseFromMatch(ps, s).None?
  {
    if |ps| > 0 {
      forall j | 0 <= j < |ps| - 1 ensures forall x: nat :: !MatchesAt(ps[1..][j], s, x) {
        assert ps[1..][j] == ps[j + 1];
      }
      MatchNoneEverywhere(ps[1..], s);
    }
  }

  /** When the fallback cut after a later pattern, the first pattern, absent
      from the original, is absent from the result too. */
  lemma AbsentAfterCut(db: string, ps: seq<string>, cs: string)
    requires PlainDatabaseName(db) && |ps| > 0 && WellFormedPattern(ps[0])
    requires IndexOfFrom(cs, ps[0], 0).None?
    requires DatabaseSetByIndex(db, ps[1..], cs).Some?
    ensures IndexOfFrom(DatabaseSetByIndex(db, ps[1..], cs).value, ps[0], 0).None?
  {
    var p := ps[0];
    var used, at := SetByIndexShape(db, ps[1..], cs);
    var q := ps[1..][used];
    var n := at + |q|;
    assert OccursAt(q, cs, at);
    var r := cs[..n] + db;
    forall j: nat ensures !OccursAt(p, r, j) {
      OccurrenceAfterAppend(p, cs, n, db, r, j);
    }
  }

  lemma {:induction false} RoundTripByIndex(db: string, ps: seq<string>, cs: string)
    requires PlainDatabaseName(db) && AllWellFormed(ps)
    requires DatabaseSetByIndex(db, ps, cs).Some?
    ensures DatabaseFromIndex(ps, DatabaseSetByIndex(db, ps, cs).value) == Some(db)
  {
    var p := ps[0];
    var found := IndexOfFrom(cs, p, 0);
    if found.Some? {
      var i := found.value;
      IndexAfterCut(p, cs, i, db);
      assert (cs[..i + |p|] + db)[i + |p|..] == db;
    } else {
      assert WellFormedPattern(p);
      AbsentAfterCut(db, ps, cs);
      RoundTripByIndex(db, ps[1..], cs);
    }
  }

  lemma {:induction false} SetByIndexFound(db: string, ps: seq<string>, cs: string, j: nat)
    requires j < |ps| && Contains(cs, ps[j])
    ensures DatabaseSetByIndex(db, ps, cs).Some?
  {
    ContainsIffIndexOf(cs, ps[0]);
    if 0 < j && IndexOfFrom(cs, ps[0], 0).None? {
      assert ps[1..][j - 1] == ps[j];
      SetByIndexFound(db, ps[1..], cs, j - 1);
    }
  }

  lemma FallbackRoundTrip(db: string, cs: string)
    requires PlainDatabaseName(db)
    requires DatabaseSetByMatch(db, CatalogPatterns, cs).None?
    requires DatabaseSetByIndex(db, CatalogPatterns, cs).Some?
    ensures GetDatabase(DatabaseSetByIndex(db, CatalogPatterns, cs).value) == Some(db)
  {
    var ps := CatalogPatterns;
    CatalogPatternsWellFormed();
    var used, at := SetByIndexShape(db, ps, cs);
    var n := at + |ps[used]|;
    assert OccursAt(ps[used], cs, at);
    var r := cs[..n] + db;
    SetByMatchNone(db, ps, cs);
    forall j, x: nat | 0 <= j < |ps| ensures !MatchesAt(ps[j], r, x) {
      MatchAfterAppend(ps[j], cs, n, db, r, x);
    }
    MatchNoneEverywhere(ps, r);
    RoundTripByIndex(db, ps, cs);
  }

  /** The database that SetDatabase writes is the one GetDatabase reads back,
      whenever the connection string holds some catalog pattern. */
  lemma GetAfterSet(db: string, cs: string)
    requires PlainDatabaseName(db)
    requires exists k :: 0 <= k < |CatalogPatterns| && Contains(cs, CatalogPatterns[k])
    ensures GetDatabase(SetDatabase(db, cs)) == Some(db)
  {
    CatalogPatternsWellFormed();
    if DatabaseSetByMatch(db, CatalogPatterns, cs).Some? {
      RoundTripByMatch(db, CatalogPatterns, cs);
    } else {
      var k :| 0 <= k < |CatalogPatterns| && Contains(cs, CatalogPatterns[k]);
      SetByIndexFound(db, CatalogPatterns, cs, k);
      FallbackRoundTrip(db, cs);
    }
  }
}
