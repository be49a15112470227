/** Glob targeting of policies at schemas, tables and columns. */
module PolicyMatch {
  import opened Walks

  function MatchesPattern(pattern: string, value: string): bool {
    if pattern == "*" then true
    else if pattern != [] && pattern[|pattern| - 1] == '*' then pattern[..|pattern| - 1] <= value
    else if pattern != [] && pattern[0] == '*' then EndsWith(value, pattern[1..])
    else pattern == value
  }

  predicate EndsWith(value: string, suffix: string) {
    |suffix| <= |value| && value[|value| - |suffix|..] == suffix
  }

  /** General glob matching: a star stands for any text. */
  ghost predicate Glob(pattern: string, value: string) {
    if pattern == [] then value == []
    else if pattern[0] == '*' then exists k :: 0 <= k <= |value| && Glob(pattern[1..], value[k..])
    else value != [] && value[0] == pattern[0] && Glob(pattern[1..], value[1..])
  }

  /** The patterns the documentation speaks of: no star, or one, at either end. */
  ghost predicate Simple(pattern: string) {
    || '*' !in pattern
    || (pattern[0] == '*' && '*' !in pattern[1..])
    || (pattern[|pattern| - 1] == '*' && '*' !in pattern[..|pattern| - 1])
  }

  lemma {:induction false} GlobLiteral(pattern: string, value: string)
    requires '*' !in pattern
    ensures Glob(pattern, value) <==> pattern == value
    decreases pattern
  {
    if pattern != [] {
      if value != [] {
        GlobLiteral(pattern[1..], value[1..]);
        assert pattern == [pattern[0]] + pattern[1..] && value == [value[0]] + value[1..];
      }
    }
  }

  lemma GlobStar(value: string)
    ensures Glob("*", value)
  {
    var p := "*";
    assert p[1..] == [];
    assert Glob(p[1..], value[|value|..]);
  }

  lemma {:induction false} GlobPrefix(prefix: string, value: string)
    requires '*' !in prefix
    ensures Glob(prefix + "*", value) <==> prefix <= value
    decreases prefix
  {
    var p := prefix + "*";
    if prefix == [] {
      assert p == "*";
      GlobStar(value);
    } else {
      assert p[1..] == prefix[1..] + "*";
      if value != [] {
        GlobPrefix(prefix[1..], value[1..]);
        assert prefix == [prefix[0]] + prefix[1..] && value == [value[0]] + value[1..];
      }
    }
  }

  lemma GlobSuffix(suffix: string, value: string)
    requires '*' !in suffix
    ensures Glob("*" + suffix, value) <==> EndsWith(value, suffix)
  {
    var p := "*" + suffix;
    assert p[1..] == suffix;
    forall k | 0 <= k <= |value| ensures Glob(suffix, value[k..]) <==> suffix == value[k..] {
      GlobLiteral(suffix, value[k..]);
    }
    if EndsWith(value, suffix) {
      var k := |value| - |suffix|;
      assert Glob(p[1..], value[k..]);
    }
  }

  /** On simple patterns the matcher is general glob matching. */
  lemma SimpleIsGlob(pattern: string, value: string)
    requires Simple(pattern)
    ensures MatchesPattern(pattern, value) <==> Glob(pattern, value)
  {
    if pattern == "*" {
      GlobStar(value);
    } else if '*' !in pattern {
      GlobLiteral(pattern, value);
    } else if pattern[|pattern| - 1] == '*' {
      var prefix := pattern[..|pattern| - 1];
      assert pattern == prefix + "*";
      assert |pattern| >= 2 ==> '*' in pattern[1..] by {
        if |pattern| >= 2 { assert pattern[1..][|pattern| - 2] == '*'; }
      }
      GlobPrefix(prefix, value);
    } else {
      assert pattern == "*" + pattern[1..];
      GlobSuffix(pattern[1..], value);
    }
  }

  /** The pattern with its stars removed. */
  ghost function Bare(pattern: string): string {
    if pattern == [] then []
    else if pattern[0] == '*' then Bare(pattern[1..])
    else [pattern[0]] + Bare(pattern[1..])
  }

  lemma {:induction false} GlobBare(pattern: string)
    ensures Glob(pattern, Bare(pattern)) && '*' !in Bare(pattern)
    decreases pattern
  {
    if pattern != [] {
      GlobBare(pattern[1..]);
      var bare := Bare(pattern);
      if pattern[0] == '*' {
        assert bare[0..] == bare;
        assert Glob(pattern[1..], bare[0..]);
      } else {
        assert bare[1..] == Bare(pattern[1..]);
      }
    }
  }

  lemma PrefixElement(a: string, b: string, c: char)
    requires a <= b && c in a
    ensures c in b
  {
    var i :| 0 <= i < |a| && a[i] == c;
    assert b[i] == c;
  }

  lemma SuffixElement(a: string, b: string, c: char)
    requires EndsWith(b, a) && c in a
    ensures c in b
  {
    var i :| 0 <= i < |a| && a[i] == c;
    assert b[|b| - |a| + i] == c;
  }

  /** A pattern that is not simple fails to match its own text without the stars. */
  lemma NotSimpleMisses(pattern: string)
    requires !Simple(pattern)
    ensures !MatchesPattern(pattern, Bare(pattern))
  {
    GlobBare(pattern);
    var bare := Bare(pattern);
    if pattern[|pattern| - 1] == '*' {
      if pattern[..|pattern| - 1] <= bare {
        PrefixElement(pattern[..|pattern| - 1], bare, '*');
      }
    } else if pattern[0] == '*' && EndsWith(bare, pattern[1..]) {
      SuffixElement(pattern[1..], bare, '*');
    }
  }

  /** The matcher agrees with general globbing on every value exactly for simple patterns. */
  lemma GlobExactlyWhenSimple(pattern: string)
    ensures (forall value :: MatchesPattern(pattern, value) <==> Glob(pattern, value)) <==> Simple(pattern)
  {
    if Simple(pattern) {
      forall value ensures MatchesPattern(pattern, value) <==> Glob(pattern, value) {
        SimpleIsGlob(pattern, value);
      }
    } else {
      GlobBare(pattern);
      NotSimpleMisses(pattern);
    }
  }

  /** Any pattern at all: a last star stands for any ending, otherwise a first star for any
      beginning; every other character, stars included, stands for itself. */
  lemma MatchesExact(text: string, value: string)
    ensures MatchesPattern(text + "*", value) <==> exists rest: string :: value == text + rest
    ensures (text == [] || text[|text| - 1] != '*') ==>
              (MatchesPattern("*" + text, value) <==> exists rest: string :: value == rest + text)
    ensures (text == [] || (text[0] != '*' && text[|text| - 1] != '*')) ==> (MatchesPattern(text, value) <==> text == value)
  {
    var p := text + "*";
    assert p[..|p| - 1] == text && p[|p| - 1] == '*';
    if text <= value { assert value == text + value[|text|..]; }
    if text == [] { assert p == "*" && value == text + value; }
    if text == [] || text[|text| - 1] != '*' { SuffixExact(text, value); }
  }

  lemma SuffixExact(text: string, value: string)
    requires text == [] || text[|text| - 1] != '*'
    ensures MatchesPattern("*" + text, value) <==> exists rest: string :: value == rest + text
  {
    var p := "*" + text;
    assert p[1..] == text;
    if text == [] {
      assert p == "*" && value == value + text;
    } else {
      assert p[|p| - 1] == text[|text| - 1];
      if EndsWith(value, text) { assert value == value[..|value| - |text|] + text; }
    }
  }

  // ----- targets -----

  datatype TargetEntry = TargetEntry(schemas: seq<string>, tables: seq<string>)

  type Aliases = map<string, string>

  function Upstream(schema: string, aliases: Aliases): string {
    if schema in aliases then aliases[schema] else schema
  }

  predicate AnyMatches(patterns: seq<string>, value: string) {
    exists p :: p in patterns && MatchesPattern(p, value)
  }

  predicate MatchesTable(e: TargetEntry, schema: string, table: string, aliases: Aliases) {
    AnyMatches(e.schemas, Upstream(schema, aliases)) && AnyMatches(e.tables, table)
  }

  function MatchesSchemaTable(rs: string, rt: string, schema: string, table: string, aliases: Aliases): bool {
    if !MatchesPattern(rt, table) then false
    else MatchesPattern(rs, Upstream(schema, aliases))
  }

  function MatchesSchemaOnly(rs: string, schema: string, aliases: Aliases): bool {
    MatchesPattern(rs, Upstream(schema, aliases))
  }

  /** An entry matches a table exactly when some pair of its patterns does. */
  lemma TableIsProduct(e: TargetEntry, schema: string, table: string, aliases: Aliases)
    ensures MatchesTable(e, schema, table, aliases) <==>
            exists rs, rt :: rs in e.schemas && rt in e.tables && MatchesSchemaTable(rs, rt, schema, table, aliases)
  {
    if MatchesTable(e, schema, table, aliases) {
      var rs :| rs in e.schemas && MatchesPattern(rs, Upstream(schema, aliases));
      var rt :| rt in e.tables && MatchesPattern(rt, table);
      assert MatchesSchemaTable(rs, rt, schema, table, aliases);
    }
  }

  /** A schema outside the alias map is matched under its own name, an aliased one under the
      name it stands for; patterns are matched against that name and the table's. */
  lemma MatchedUnderUpstreamName(e: TargetEntry, rs: string, rt: string, schema: string, table: string, aliases: Aliases)
    ensures var name := if schema in aliases then aliases[schema] else schema;
            && (MatchesTable(e, schema, table, aliases) <==>
                  (exists p :: p in e.schemas && MatchesPattern(p, name)) && (exists p :: p in e.tables && MatchesPattern(p, table)))
            && (MatchesSchemaTable(rs, rt, schema, table, aliases) <==> MatchesPattern(rs, name) && MatchesPattern(rt, table))
            && (MatchesSchemaOnly(rs, schema, aliases) <==> MatchesPattern(rs, name))
  {
  }

  /** An alias map after a schema's visible name changes. */
  ghost function Renamed(aliases: Aliases, was: string, now: string): Aliases
    requires was in aliases
  {
    (aliases - {was})[now := aliases[was]]
  }

  /** Renaming a schema alias changes no match: not for the renamed schema, nor for any other. */
  lemma RenamingKeepsMatches(e: TargetEntry, aliases: Aliases, was: string, now: string, other: string, table: string)
    requires was in aliases && (now == was || now !in aliases) && other != was && other != now
    ensures MatchesTable(e, now, table, Renamed(aliases, was, now)) <==> MatchesTable(e, was, table, aliases)
    ensures MatchesTable(e, other, table, Renamed(aliases, was, now)) <==> MatchesTable(e, other, table, aliases)
    ensures forall rs :: MatchesSchemaOnly(rs, now, Renamed(aliases, was, now)) <==> MatchesSchemaOnly(rs, was, aliases)
  {
    assert Upstream(now, Renamed(aliases, was, now)) == Upstream(was, aliases);
    assert Upstream(other, Renamed(aliases, was, now)) == Upstream(other, aliases);
  }
}
