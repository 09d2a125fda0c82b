/** The manifest entry pattern
      (<File\s+md5=")([0-9A-Fa-f]{32})("\s+import="[01]">)(.+?)(</File>)
    of civ5-mod/update_md5.py, as a hand-written matcher at one position,
    together with the set of strings the pattern describes and the proof that
    the matcher returns the match Python's engine picks there. */
module Pattern {
  import opened Chars

  datatype Option<T> = None | Some(value: T)

  const HashLength: nat := 32

  /** The boundaries of one match. Group 1 is text[start..hashStart],
      group 2 text[hashStart..hashStart + 32], group 3
      text[hashStart + 32..pathStart], group 4 text[pathStart..pathEnd] and
      group 5 text[pathEnd..end]. */
  datatype Entry = Entry(start: nat, hashStart: nat, pathStart: nat, pathEnd: nat, end: nat)

  predicate AllSpace(s: string, a: nat, b: nat)
    requires a <= b <= |s|
  {
    forall k :: a <= k < b ==> IsSpace(s[k])
  }

  predicate AllHex(s: string, a: nat, b: nat)
    requires a <= b <= |s|
  {
    forall k :: a <= k < b ==> IsHex(s[k])
  }

  /** No character of s[a..b] is a newline, so `.` accepts all of it. */
  predicate NoNewline(s: string, a: nat, b: nat)
    requires a <= b <= |s|
  {
    forall k :: a <= k < b ==> s[k] != '\n'
  }

  predicate ClosesAt(s: string, k: nat) {
    k + 7 <= |s| && s[k..k + 7] == "</File>"
  }

  predicate IsFlag(c: char) {
    c == '0' || c == '1'
  }

  /** The five groups of `m` lie in order inside `s`, group 2 taking 32
      characters. */
  predicate Bounded(s: string, m: Entry) {
    m.start <= m.hashStart && m.hashStart + HashLength <= m.pathStart <= m.pathEnd <= m.end <= |s|
  }

  /** `<File\s+md5="` occupies s[i..h]. */
  predicate OpenTagAt(s: string, i: nat, h: nat) {
    i + 10 < h <= |s| &&
    s[i..i + 5] == "<File" && AllSpace(s, i + 5, h - 5) && s[h - 5..h] == "md5=\""
  }

  /** `[0-9A-Fa-f]{32}` then `"\s+import="[01]">` occupies s[h..p]. */
  predicate HashFieldAt(s: string, h: nat, p: nat) {
    h + HashLength + 12 < p <= |s| &&
    AllHex(s, h, h + HashLength) && s[h + HashLength] == '"' &&
    AllSpace(s, h + HashLength + 1, p - 11) &&
    s[p - 11..p - 3] == "import=\"" && IsFlag(s[p - 3]) && s[p - 2..p] == "\">"
  }

  /** `.+` occupies s[p..e] and `</File>` follows it. */
  predicate PathAt(s: string, p: nat, e: nat) {
    p < e <= |s| && NoNewline(s, p, e) && ClosesAt(s, e)
  }

  /** `m` is a way for the pattern to match `s` at position `i`, whichever
      length the lazy path group takes. */
  predicate IsEntryAt(s: string, i: nat, m: Entry)
    ensures IsEntryAt(s, i, m) ==> Bounded(s, m)
  {
    m.start == i && m.end == m.pathEnd + 7 &&
    OpenTagAt(s, i, m.hashStart) && HashFieldAt(s, m.hashStart, m.pathStart) &&
    PathAt(s, m.pathStart, m.pathEnd)
  }

  /** The end of the run of whitespace that starts at `k`: `\s+` followed by a
      letter can only take the whole run. */
  function SpaceEnd(s: string, k: nat): (j: nat)
    requires k <= |s|
    ensures k <= j <= |s|
    decreases |s| - k
  {
    if k < |s| && IsSpace(s[k]) then SpaceEnd(s, k + 1) else k
  }

  /** SpaceEnd stops at the first character that is not whitespace. */
  lemma {:induction false} SpaceEndSound(s: string, k: nat)
    requires k <= |s|
    ensures AllSpace(s, k, SpaceEnd(s, k))
    ensures SpaceEnd(s, k) == |s| || !IsSpace(s[SpaceEnd(s, k)])
    decreases |s| - k
  {
    if k < |s| && IsSpace(s[k]) {
      SpaceEndSound(s, k + 1);
    }
  }

  /** The lazy `.+?` followed by `</File>`: the first `e' >= e` at which
      `</File>` starts, provided no newline comes before it. */
  function PathEnd(s: string, p: nat, e: nat): (r: Option<nat>)
    requires p < e <= |s| && NoNewline(s, p, e)
    ensures r.Some? ==> e <= r.value && r.value + 7 <= |s|
    decreases |s| - e
  {
    if ClosesAt(s, e) then Some(e)
    else if e < |s| && s[e] != '\n' then PathEnd(s, p, e + 1)
    else None
  }

  /** PathEnd finds the first `</File>` from `e` on that no newline
      precedes, and finds none exactly when there is none. */
  lemma {:induction false} PathEndSound(s: string, p: nat, e: nat)
    requires p < e <= |s| && NoNewline(s, p, e)
    ensures var r := PathEnd(s, p, e);
      r.Some? ==> ClosesAt(s, r.value) && NoNewline(s, p, r.value) &&
                  forall k :: e <= k < r.value ==> !ClosesAt(s, k)
    ensures PathEnd(s, p, e).None? ==> forall k :: e <= k <= |s| && NoNewline(s, p, k) ==> !ClosesAt(s, k)
    decreases |s| - e
  {
    if !ClosesAt(s, e) && e < |s| && s[e] != '\n' {
      PathEndSound(s, p, e + 1);
    }
  }

  /** Group 1, `<File\s+md5="`, at `i`: where the hash starts. */
  function HashStartAt(s: string, i: nat): (r: Option<nat>)
    ensures r.Some? ==> i + 10 < r.value <= |s|
  {
    if !(i + 5 <= |s| && s[i..i + 5] == "<File") then None
    else
      var w := SpaceEnd(s, i + 5);
      if i + 5 < w && w + 5 <= |s| && s[w..w + 5] == "md5=\"" then Some(w + 5) else None
  }

  /** Group 2 and group 3, `[0-9A-Fa-f]{32}` then `"\s+import="[01]">`, from
      `h`: where the path starts. */
  function PathStartAt(s: string, h: nat): (r: Option<nat>)
    ensures r.Some? ==> h + HashLength + 12 < r.value <= |s|
  {
    if !(h + HashLength < |s| && AllHex(s, h, h + HashLength) && s[h + HashLength] == '"') then None
    else
      var w := SpaceEnd(s, h + HashLength + 1);
      if h + HashLength + 1 < w && w + 11 <= |s| && s[w..w + 8] == "import=\"" &&
         IsFlag(s[w + 8]) && s[w + 9..w + 11] == "\">"
      then Some(w + 11)
      else None
  }

  /** `FILE_RE.match(s, i)`: the match the engine returns at `i`, if any. */
  function MatchAt(s: string, i: nat): (r: Option<Entry>)
    ensures r.Some? ==> r.value.start == i < r.value.end && Bounded(s, r.value)
  {
    match HashStartAt(s, i)
    case None => None
    case Some(h) =>
      match PathStartAt(s, h)
      case None => None
      case Some(p) =>
        if p < |s| && s[p] != '\n' then
          match PathEnd(s, p, p + 1)
          case None => None
          case Some(e) => Some(Entry(i, h, p, e, e + 7))
        else None
  }

  /** HashStartAt finds group 1. */
  lemma HashStartAtSound(s: string, i: nat)
    ensures HashStartAt(s, i).Some? ==> OpenTagAt(s, i, HashStartAt(s, i).value)
  {
    if HashStartAt(s, i).Some? {
      SpaceEndSound(s, i + 5);
    }
  }

  /** PathStartAt finds groups 2 and 3. */
  lemma PathStartAtSound(s: string, h: nat)
    ensures PathStartAt(s, h).Some? ==> HashFieldAt(s, h, PathStartAt(s, h).value)
  {
    if PathStartAt(s, h).Some? {
      SpaceEndSound(s, h + HashLength + 1);
    }
  }

  /** What the matcher returns is a way for the pattern to match there. */
  lemma MatchAtSound(s: string, i: nat)
    ensures MatchAt(s, i).Some? ==> IsEntryAt(s, i, MatchAt(s, i).value)
  {
    if MatchAt(s, i).Some? {
      var h := HashStartAt(s, i).value;
      HashStartAtSound(s, i);
      var p := PathStartAt(s, h).value;
      PathStartAtSound(s, h);
      assert NoNewline(s, p, p + 1);
      var e := PathEnd(s, p, p + 1).value;
      PathEndSound(s, p, p + 1);
      assert MatchAt(s, i).value == Entry(i, h, p, e, e + 7);
    }
  }

  /** A run of whitespace followed by a non-space ends where SpaceEnd says. */
  lemma {:induction false} SpaceEndIsRunEnd(s: string, k: nat, j: nat)
    requires k <= j < |s| && AllSpace(s, k, j) && !IsSpace(s[j])
    ensures SpaceEnd(s, k) == j
    decreases j - k
  {
    if k < j {
      SpaceEndIsRunEnd(s, k + 1, j);
    }
  }

  /** Wherever group 1 can end, it ends where HashStartAt says. */
  lemma HashStartOfEntry(s: string, i: nat, h: nat)
    requires OpenTagAt(s, i, h)
    ensures HashStartAt(s, i) == Some(h)
  {
    assert s[h - 5] == s[h - 5..h][0] == 'm';
    SpaceEndIsRunEnd(s, i + 5, h - 5);
  }

  /** Wherever groups 2 and 3 can end, they end where PathStartAt says. */
  lemma PathStartOfEntry(s: string, h: nat, p: nat)
    requires HashFieldAt(s, h, p)
    ensures PathStartAt(s, h) == Some(p)
  {
    assert s[p - 11] == s[p - 11..p - 3][0] == 'i';
    SpaceEndIsRunEnd(s, h + HashLength + 1, p - 11);
  }

  /** Every way to match at `i` has the same groups 1 to 3: the two
      whitespace runs are forced, so only the lazy path can vary. */
  lemma EntryPrefixDetermined(s: string, i: nat, m1: Entry, m2: Entry)
    requires IsEntryAt(s, i, m1) && IsEntryAt(s, i, m2)
    ensures m1.hashStart == m2.hashStart && m1.pathStart == m2.pathStart
  {
    HashStartOfEntry(s, i, m1.hashStart);
    HashStartOfEntry(s, i, m2.hashStart);
    PathStartOfEntry(s, m1.hashStart, m1.pathStart);
    PathStartOfEntry(s, m2.hashStart, m2.pathStart);
  }

  /** When the pattern can match at `i` at all, the matcher finds a match, and
      its path is no longer than that of any other way to match. */
  lemma MatchAtFindsShortest(s: string, i: nat, m: Entry)
    requires IsEntryAt(s, i, m)
    ensures MatchAt(s, i).Some? && MatchAt(s, i).value.pathEnd <= m.pathEnd
  {
    HashStartOfEntry(s, i, m.hashStart);
    PathStartOfEntry(s, m.hashStart, m.pathStart);
    var p := m.pathStart;
    assert NoNewline(s, p, p + 1);
    PathEndSound(s, p, p + 1);
  }

  /** The matcher is exactly Python's choice at `i`: it finds a match whenever
      the pattern can match there, and the one it returns has the shortest
      path, i.e. the path stops at the first `</File>`. */
  lemma MatchAtIsShortestEntry(s: string, i: nat)
    ensures MatchAt(s, i).None? <==> forall m :: !IsEntryAt(s, i, m)
    ensures MatchAt(s, i).Some? ==> IsEntryAt(s, i, MatchAt(s, i).value)
    ensures MatchAt(s, i).Some? ==>
      forall m :: IsEntryAt(s, i, m) ==> MatchAt(s, i).value.pathEnd <= m.pathEnd
  {
    MatchAtSound(s, i);
    forall m | IsEntryAt(s, i, m)
      ensures MatchAt(s, i).Some? && MatchAt(s, i).value.pathEnd <= m.pathEnd
    {
      MatchAtFindsShortest(s, i, m);
    }
  }

  /** Two matches at the same position with the same path are the same. */
  lemma EntryDeterminedByPathEnd(s: string, i: nat, m1: Entry, m2: Entry)
    requires IsEntryAt(s, i, m1) && IsEntryAt(s, i, m2) && m1.pathEnd == m2.pathEnd
    ensures m1 == m2
  {
    EntryPrefixDetermined(s, i, m1, m2);
  }
}
