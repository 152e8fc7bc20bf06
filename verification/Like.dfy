/** SQL LIKE with a backslash escape, and the escaping of literal text for it. The
    two dialects differ: SQLite compares ASCII letters without regard to case. */
module Like {
  import opened Dialects

  function Fold(d: Dialect, c: char): char {
    if d.SQLite? && 'A' <= c <= 'Z' then (c as int + 32) as char else c
  }

  predicate Same(d: Dialect, a: char, b: char) { Fold(d, a) == Fold(d, b) }

  /** Characters compare equal if they are, or on SQLite if they are the two cases of one
      ASCII letter. */
  lemma SameIff(d: Dialect, a: char, b: char)
    ensures Same(d, a, b) <==>
      || a == b
      || (d.SQLite? && 'A' <= a <= 'Z' && b as int == a as int + 32)
      || (d.SQLite? && 'A' <= b <= 'Z' && a as int == b as int + 32)
  {
  }

  predicate Matches(d: Dialect, pattern: string, s: string)
    decreases |pattern| + |s|
  {
    if pattern == [] then s == []
    else if pattern[0] == '%' then
      Matches(d, pattern[1..], s) || (s != [] && Matches(d, pattern, s[1..]))
    else if pattern[0] == '_' then
      s != [] && Matches(d, pattern[1..], s[1..])
    else if pattern[0] == '\\' then
      |pattern| > 1 && s != [] && Same(d, pattern[1], s[0]) && Matches(d, pattern[2..], s[1..])
    else
      s != [] && Same(d, pattern[0], s[0]) && Matches(d, pattern[1..], s[1..])
  }

  /** Whether s starts with p, letter for letter as the dialect compares them. */
  predicate StartsWith(d: Dialect, p: string, s: string) {
    |p| <= |s| && forall i :: 0 <= i < |p| ==> Same(d, p[i], s[i])
  }

  function ReplaceAll(s: string, c: char, r: string): string {
    if s == [] then [] else (if s[0] == c then r else [s[0]]) + ReplaceAll(s[1..], c, r)
  }

  /** The three passes of the code, in its order. */
  function Escape(s: string): string {
    ReplaceAll(ReplaceAll(ReplaceAll(s, '\\', "\\\\"), '%', "\\%"), '_', "\\_")
  }

  /** One pass: a backslash before each special character. */
  function Escaped(s: string): string {
    if s == [] then []
    else (if s[0] == '\\' || s[0] == '%' || s[0] == '_' then ['\\', s[0]] else [s[0]]) + Escaped(s[1..])
  }

  lemma {:induction false} ReplaceConcat(a: string, b: string, c: char, r: string)
    ensures ReplaceAll(a + b, c, r) == ReplaceAll(a, c, r) + ReplaceAll(b, c, r)
  {
    if a == [] {
      assert a + b == b;
    } else {
      assert (a + b)[1..] == a[1..] + b;
      ReplaceConcat(a[1..], b, c, r);
    }
  }

  lemma ReplaceOne(x: char, c: char, r: string)
    ensures ReplaceAll([x], c, r) == if x == c then r else [x]
  {
    assert [x][1..] == [];
  }

  /** What the later two passes make of one character of the first pass's output. */
  lemma LaterPasses(x: char)
    ensures ReplaceAll(ReplaceAll([x], '%', "\\%"), '_', "\\_") ==
      if x == '%' || x == '_' then ['\\', x] else [x]
  {
    ReplaceOne(x, '%', "\\%");
    if x == '%' {
      ReplaceConcat("\\", "%", '_', "\\_");
      ReplaceOne('\\', '_', "\\_");
      ReplaceOne('%', '_', "\\_");
      assert "\\%" == "\\" + "%";
    } else {
      ReplaceOne(x, '_', "\\_");
    }
  }

  /** Escaping the backslash first keeps the passes from undoing one another: the
      three passes together are the one-pass escape. */
  lemma {:induction false} ThreePassesAreOne(s: string)
    ensures Escape(s) == Escaped(s)
  {
    if s != [] {
      var first := if s[0] == '\\' then "\\\\" else [s[0]];
      var rest := ReplaceAll(s[1..], '\\', "\\\\");
      ReplaceConcat(first, rest, '%', "\\%");
      ReplaceConcat(ReplaceAll(first, '%', "\\%"), ReplaceAll(rest, '%', "\\%"), '_', "\\_");
      LaterPasses(s[0]);
      if s[0] == '\\' {
        assert first == ['\\'] + ['\\'];
        ReplaceConcat(['\\'], ['\\'], '%', "\\%");
        ReplaceConcat(ReplaceAll(['\\'], '%', "\\%"), ReplaceAll(['\\'], '%', "\\%"), '_', "\\_");
      }
      ThreePassesAreOne(s[1..]);
    }
  }

  lemma EscapeMatches(d: Dialect, c: char, rest: string, s: string)
    ensures Matches(d, ['\\', c] + rest, s) <==> s != [] && Same(d, c, s[0]) && Matches(d, rest, s[1..])
  {
    assert (['\\', c] + rest)[2..] == rest;
  }

  lemma PlainMatches(d: Dialect, c: char, rest: string, s: string)
    requires c != '\\' && c != '%' && c != '_'
    ensures Matches(d, [c] + rest, s) <==> s != [] && Same(d, c, s[0]) && Matches(d, rest, s[1..])
  {
    assert ([c] + rest)[1..] == rest;
  }

  /** One character of the text: its escape matches it and nothing else. */
  lemma EscapedHead(d: Dialect, p: string, rest: string, s: string)
    requires p != []
    ensures Matches(d, Escaped(p) + rest, s) <==>
      s != [] && Same(d, p[0], s[0]) && Matches(d, Escaped(p[1..]) + rest, s[1..])
  {
    var after := Escaped(p[1..]) + rest;
    if p[0] == '\\' || p[0] == '%' || p[0] == '_' {
      assert Escaped(p) + rest == ['\\', p[0]] + after;
      EscapeMatches(d, p[0], after, s);
    } else {
      assert Escaped(p) + rest == [p[0]] + after;
      PlainMatches(d, p[0], after, s);
    }
  }

  /** The text starts with p, and the pattern matches what follows. */
  predicate Continues(d: Dialect, p: string, rest: string, s: string) {
    StartsWith(d, p, s) && Matches(d, rest, s[|p|..])
  }

  lemma ContinuesCons(d: Dialect, p: string, rest: string, s: string)
    requires p != []
    ensures Continues(d, p, rest, s) <==> s != [] && Same(d, p[0], s[0]) && Continues(d, p[1..], rest, s[1..])
  {
    if s != [] {
      StartsWithCons(d, p, s);
      if |p| <= |s| { assert s[1..][|p[1..]|..] == s[|p|..]; }
    }
  }

  /** Escaped text matches itself and nothing else. */
  lemma {:induction false} EscapedMatches(d: Dialect, p: string, rest: string, s: string)
    ensures Matches(d, Escaped(p) + rest, s) <==> Continues(d, p, rest, s)
  {
    if p == [] {
      assert Escaped(p) + rest == rest && s[0..] == s;
    } else {
      EscapedHead(d, p, rest, s);
      ContinuesCons(d, p, rest, s);
      if s != [] { EscapedMatches(d, p[1..], rest, s[1..]); }
    }
  }

  lemma StartsWithCons(d: Dialect, p: string, s: string)
    requires p != [] && s != []
    ensures StartsWith(d, p, s) <==> Same(d, p[0], s[0]) && StartsWith(d, p[1..], s[1..])
  {
    if Same(d, p[0], s[0]) && StartsWith(d, p[1..], s[1..]) {
      forall i | 0 <= i < |p| ensures Same(d, p[i], s[i]) {
        if i > 0 { assert p[1..][i - 1] == p[i] && s[1..][i - 1] == s[i]; }
      }
    }
    if StartsWith(d, p, s) {
      forall i | 0 <= i < |p| - 1 ensures Same(d, p[1..][i], s[1..][i]) {
        assert Same(d, p[i + 1], s[i + 1]);
      }
    }
  }

  lemma {:induction false} PercentMatches(d: Dialect, s: string)
    ensures Matches(d, "%", s)
  {
    if s == [] {
      assert "%"[1..] == "";
    } else {
      PercentMatches(d, s[1..]);
    }
  }

  lemma {:induction false} InnerSlash(d: Dialect, s: string)
    ensures Matches(d, "%/%", s) <==> '/' in s
  {
    assert "%/%"[1..] == "/%" && "/%"[1..] == "%";
    if s != [] {
      InnerSlash(d, s[1..]);
      PercentMatches(d, s[1..]);
      assert s == [s[0]] + s[1..];
      assert Matches(d, "/%", s) <==> s[0] == '/';
    }
  }

  /** The prefix pattern selects exactly what starts with the prefix. */
  lemma PrefixPattern(d: Dialect, p: string, s: string)
    ensures Matches(d, Escape(p) + "%", s) <==> StartsWith(d, p, s)
  {
    ThreePassesAreOne(p);
    EscapedMatches(d, p, "%", s);
    if StartsWith(d, p, s) { PercentMatches(d, s[|p|..]); }
  }

  /** The nested pattern selects what starts with the prefix and has a further slash. */
  lemma NestedPattern(d: Dialect, p: string, s: string)
    ensures Matches(d, Escape(p) + "%/%", s) <==> StartsWith(d, p, s) && '/' in s[|p|..]
  {
    ThreePassesAreOne(p);
    EscapedMatches(d, p, "%/%", s);
    if StartsWith(d, p, s) { InnerSlash(d, s[|p|..]); }
  }

  /** For PostgreSQL that is the literal prefix. */
  lemma PostgresPrefix(p: string, s: string)
    ensures StartsWith(PostgreSQL, p, s) <==> p <= s
  {
    if StartsWith(PostgreSQL, p, s) {
      assert forall i :: 0 <= i < |p| ==> p[i] == s[i] by {
        assert forall i :: 0 <= i < |p| ==> Same(PostgreSQL, p[i], s[i]);
      }
    }
  }

  /** For SQLite it is more: a differently cased directory matches too. */
  lemma SQLiteMatchesCaseTwin()
    ensures Matches(SQLite, Escape("docs/") + "%", "DOCS/a") && !("docs/" <= "DOCS/a")
  {
    var p, s := "docs/", "DOCS/a";
    assert StartsWith(SQLite, p, s);
    PrefixPattern(SQLite, p, s);
    assert p[0] != s[0];
  }
}
