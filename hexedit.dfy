/** Rewriting hash digits does not move any match. The rewrite only replaces
    hex digits that sit inside a run of hex digits fenced by quotes (the
    32-digit `md5="..."` value); no character the pattern tests with a literal
    or with `[01]` can be such a digit, so the pattern matches the rewritten
    text exactly where and as it matched the original. */
module HexEdits {
  import opened Chars
  import opened Pattern

  /** A character that is neither a hex digit nor a quote. */
  predicate Hard(c: char) {
    !IsHex(c) && c != '"'
  }

  /** Position `x` of `s` is a hex digit inside a quoted run of at least two
      hex digits. */
  predicate Editable(s: string, x: int) {
    0 < x < |s| - 1 && IsHex(s[x]) &&
    !Hard(s[x - 1]) && !Hard(s[x + 1]) &&
    (IsHex(s[x - 1]) || IsHex(s[x + 1]))
  }

  /** `t` is `s` with some editable hex digits replaced by hex digits. */
  predicate HexEdit(s: string, t: string) {
    |s| == |t| &&
    forall x :: 0 <= x < |s| && s[x] != t[x] ==> Editable(s, x) && IsHex(t[x])
  }

  /** The hex digit at `lit[j]`, if it is one, has a neighbour inside `lit`
      that rules out its being editable. */
  predicate GuardedAt(lit: string, j: nat)
    requires j < |lit|
  {
    IsHex(lit[j]) ==>
      (0 < j && Hard(lit[j - 1])) ||
      (j + 1 < |lit| && Hard(lit[j + 1])) ||
      (0 < j < |lit| - 1 && !IsHex(lit[j - 1]) && !IsHex(lit[j + 1]))
  }

  predicate Guarded(lit: string) {
    forall j :: 0 <= j < |lit| ==> GuardedAt(lit, j)
  }

  lemma PatternLiteralsGuarded()
    ensures Guarded("<File") && Guarded("md5=\"") && Guarded("import=\"")
    ensures Guarded("\">") && Guarded("</File>")
  {
    forall j | 0 <= j < 5 ensures GuardedAt("<File", j) {
      assert j == 0 || j == 1 || j == 2 || j == 3 || j == 4;
    }
    forall j | 0 <= j < 5 ensures GuardedAt("md5=\"", j) {
      assert j == 0 || j == 1 || j == 2 || j == 3 || j == 4;
    }
    forall j | 0 <= j < 8 ensures GuardedAt("import=\"", j) {
      assert j == 0 || j == 1 || j == 2 || j == 3 || j == 4 || j == 5 || j == 6 || j == 7;
    }
    forall j | 0 <= j < 2 ensures GuardedAt("\">", j) {
      assert j == 0 || j == 1;
    }
    forall j | 0 <= j < 7 ensures GuardedAt("</File>", j) {
      assert j == 0 || j == 1 || j == 2 || j == 3 || j == 4 || j == 5 || j == 6;
    }
  }

  /** Undoing a hex edit is a hex edit: the fence of quotes and the run of hex
      digits around an edited position survive the edit. */
  lemma HexEditSymmetric(s: string, t: string)
    requires HexEdit(s, t)
    ensures HexEdit(t, s)
  {
    forall x | 0 <= x < |t| && t[x] != s[x]
      ensures Editable(t, x) && IsHex(s[x])
    {
      assert Editable(s, x);
      assert s[x - 1] != t[x - 1] ==> IsHex(t[x - 1]);
      assert s[x + 1] != t[x + 1] ==> IsHex(t[x + 1]);
    }
  }

  /** No character of an occurrence of a guarded literal is editable. */
  lemma GuardedCharNotEditable(s: string, a: nat, lit: string, j: nat)
    requires Guarded(lit) && a + |lit| <= |s| && s[a..a + |lit|] == lit && j < |lit|
    ensures !Editable(s, a + j)
  {
    assert GuardedAt(lit, j);
    assert s[a + j] == lit[j];
    if 0 < j {
      assert s[a + j - 1] == lit[j - 1];
    }
    if j + 1 < |lit| {
      assert s[a + j + 1] == lit[j + 1];
    }
  }

  /** A guarded literal that occurs at `a` in `s` occurs there in `t`. */
  lemma LiteralStable(s: string, t: string, a: nat, lit: string)
    requires HexEdit(s, t) && Guarded(lit) && a + |lit| <= |s|
    requires s[a..a + |lit|] == lit
    ensures t[a..a + |lit|] == lit
  {
    forall j | 0 <= j < |lit|
      ensures t[a + j] == lit[j]
    {
      assert s[a + j] == lit[j];
      GuardedCharNotEditable(s, a, lit, j);
    }
  }

  lemma AllSpaceStable(s: string, t: string, a: nat, b: nat)
    requires HexEdit(s, t) && a <= b <= |s| && AllSpace(s, a, b)
    ensures AllSpace(t, a, b)
  {
    forall k | a <= k < b ensures IsSpace(t[k]) {
      assert IsSpace(s[k]);
    }
  }

  lemma AllHexStable(s: string, t: string, a: nat, b: nat)
    requires HexEdit(s, t) && a <= b <= |s| && AllHex(s, a, b)
    ensures AllHex(t, a, b)
  {
    forall k | a <= k < b ensures IsHex(t[k]) {
      assert IsHex(s[k]);
    }
  }

  lemma NoNewlineStable(s: string, t: string, a: nat, b: nat)
    requires HexEdit(s, t) && a <= b <= |s| && NoNewline(s, a, b)
    ensures NoNewline(t, a, b)
  {
    forall k | a <= k < b ensures t[k] != '\n' {
      assert s[k] != '\n';
    }
  }

  /** The `[01]` flag sits between two quotes, so it is never editable. */
  lemma FlagStable(s: string, t: string, x: nat)
    requires HexEdit(s, t) && 0 < x < |s| - 1
    requires s[x - 1] == '"' && s[x + 1] == '"'
    ensures s[x] == t[x]
  {
  }

  /** Group 1 survives a hex edit. */
  lemma OpenTagStable(s: string, t: string, i: nat, h: nat)
    requires HexEdit(s, t) && OpenTagAt(s, i, h)
    ensures OpenTagAt(t, i, h)
  {
    PatternLiteralsGuarded();
    LiteralStable(s, t, i, "<File");
    LiteralStable(s, t, h - 5, "md5=\"");
    AllSpaceStable(s, t, i + 5, h - 5);
  }

  /** Groups 2 and 3 survive a hex edit. */
  lemma HashFieldStable(s: string, t: string, h: nat, p: nat)
    requires HexEdit(s, t) && HashFieldAt(s, h, p)
    ensures HashFieldAt(t, h, p)
  {
    PatternLiteralsGuarded();
    LiteralStable(s, t, p - 11, "import=\"");
    LiteralStable(s, t, p - 2, "\">");
    AllHexStable(s, t, h, h + HashLength);
    AllSpaceStable(s, t, h + HashLength + 1, p - 11);
    assert s[p - 4] == s[p - 11..p - 3][7] == '"';
    assert s[p - 2] == s[p - 2..p][0] == '"';
    FlagStable(s, t, p - 3);
    assert !Editable(s, h + HashLength);
  }

  /** Groups 4 and 5 survive a hex edit. */
  lemma PathStable(s: string, t: string, p: nat, e: nat)
    requires HexEdit(s, t) && PathAt(s, p, e)
    ensures PathAt(t, p, e)
  {
    PatternLiteralsGuarded();
    LiteralStable(s, t, e, "</File>");
    NoNewlineStable(s, t, p, e);
  }

  /** A way for the pattern to match `s` at `i` is a way to match a hex edit
      of `s` there. */
  lemma EntryStable(s: string, t: string, i: nat, m: Entry)
    requires HexEdit(s, t) && IsEntryAt(s, i, m)
    ensures IsEntryAt(t, i, m)
  {
    OpenTagStable(s, t, i, m.hashStart);
    HashFieldStable(s, t, m.hashStart, m.pathStart);
    PathStable(s, t, m.pathStart, m.pathEnd);
  }

  /** A hex edit does not change what the matcher returns anywhere. */
  lemma MatchAtStable(s: string, t: string, i: nat)
    requires HexEdit(s, t)
    ensures MatchAt(s, i) == MatchAt(t, i)
  {
    HexEditSymmetric(s, t);
    MatchAtIsShortestEntry(s, i);
    MatchAtIsShortestEntry(t, i);
    match MatchAt(s, i)
    case None =>
      if MatchAt(t, i).Some? {
        EntryStable(t, s, i, MatchAt(t, i).value);
      }
    case Some(m) =>
      EntryStable(s, t, i, m);
      var n := MatchAt(t, i).value;
      EntryStable(t, s, i, n);
      EntryDeterminedByPathEnd(s, i, m, n);
  }
}
