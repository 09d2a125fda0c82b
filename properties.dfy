/** What the substitution pass of civ5-mod/update_md5.py guarantees, stated
    over the matches it visits: the count and the printed lines follow the
    entries one by one, only hash characters change, and a second pass over
    the rewritten manifest finds the same entries and changes nothing. */
module UpdateMd5Properties {
  import opened Chars
  import opened Pattern
  import opened HexEdits
  import opened UpdateMd5
  import opened Seqs

  predicate AllBounded(s: string, ms: seq<Entry>) {
    forall a :: 0 <= a < |ms| ==> Bounded(s, ms[a])
  }

  /** The number of entries of `ms` whose file exists with another hash. */
  function StaleCount(s: string, disk: Disk, ms: seq<Entry>): (n: nat)
    requires AllBounded(s, ms)
    ensures n <= |ms|
    ensures n == 0 <==> forall a :: 0 <= a < |ms| ==> !IsStale(s, disk, ms[a])
  {
    if ms == [] then 0
    else
      assert forall a :: 0 < a < |ms| ==> ms[a] == ms[1..][a - 1];
      (if IsStale(s, disk, ms[0]) then 1 else 0) + StaleCount(s, disk, ms[1..])
  }

  /** The lines the entries of `ms` print, in order. */
  function EntryLogs(s: string, disk: Disk, ms: seq<Entry>): seq<string>
    requires AllBounded(s, ms)
  {
    if ms == [] then [] else EntryLog(s, disk, ms[0]) + EntryLogs(s, disk, ms[1..])
  }

  lemma MatchesBounded(s: string, i: nat)
    requires i <= |s|
    ensures AllBounded(s, Matches(s, i))
  {
    var ms := Matches(s, i);
    MatchesAreEngineMatches(s, i);
    forall a | 0 <= a < |ms| ensures Bounded(s, ms[a]) {
      assert MatchAt(s, ms[a].start) == Some(ms[a]);
    }
  }

  /** Counting and logging a list that starts with `m`. */
  lemma CountsOfCons(s: string, disk: Disk, m: Entry, later: seq<Entry>)
    requires Bounded(s, m) && AllBounded(s, later)
    ensures AllBounded(s, [m] + later)
    ensures StaleCount(s, disk, [m] + later) == (if IsStale(s, disk, m) then 1 else 0) + StaleCount(s, disk, later)
    ensures EntryLogs(s, disk, [m] + later) == EntryLog(s, disk, m) + EntryLogs(s, disk, later)
  {
    var ms := [m] + later;
    assert ms[0] == m && ms[1..] == later;
    forall a | 0 < a < |ms| ensures Bounded(s, ms[a]) {
      assert ms[a] == later[a - 1];
    }
  }

  /** `updated` counts, and the printed lines come from, exactly the visited
      entries whose file exists with a different hash (plus a line for each
      missing file); so the count never exceeds the number of entries. */
  lemma {:induction false} SubstituteFollowsMatches(s: string, disk: Disk, i: nat)
    requires i <= |s|
    ensures AllBounded(s, Matches(s, i))
    ensures Substitute(s, disk, i).updated == StaleCount(s, disk, Matches(s, i)) <= |Matches(s, i)|
    ensures Substitute(s, disk, i).log == EntryLogs(s, disk, Matches(s, i))
    decreases |s| - i
  {
    MatchesBounded(s, i);
    if i < |s| {
      match MatchAt(s, i)
      case None =>
        SubstituteFollowsMatches(s, disk, i + 1);
      case Some(m) =>
        SubstituteFollowsMatches(s, disk, m.end);
        CountsOfCons(s, disk, m, Matches(s, m.end));
    }
  }

  /** `main` writes the manifest back exactly when some visited entry names
      an existing file whose digest differs from the upper-cased recorded
      hash. */
  lemma WrittenIffSomeStale(s: string, disk: Disk)
    ensures AllBounded(s, Matches(s, 0))
    ensures Substitute(s, disk, 0).updated > 0 <==>
      exists a :: 0 <= a < |Matches(s, 0)| && IsStale(s, disk, Matches(s, 0)[a])
  {
    SubstituteFollowsMatches(s, disk, 0);
  }

  predicate InHashField(m: Entry, x: int) {
    m.hashStart <= x < m.hashStart + HashLength
  }

  /** Position `x` lies in the hash field of one of the entries `ms`. */
  predicate InSomeHashField(ms: seq<Entry>, x: int) {
    exists a :: 0 <= a < |ms| && InHashField(ms[a], x)
  }

  /** `out`, produced from `s[i..]`, agrees with `s` wherever no match of
      `ms` spans the position. */
  predicate CopiesOutside(s: string, i: nat, out: string, ms: seq<Entry>)
    requires i + |out| <= |s|
  {
    forall y :: 0 <= y < |out| && !Covered(ms, i + y) ==> out[y] == s[i + y]
  }

  /** The match `m` occupies its own span of `out` (produced from
      `s[i..]`), filled with what `replace_match` returns for it. */
  predicate SplicedAt(s: string, disk: Disk, i: nat, out: string, m: Entry)
    requires Bounded(s, m)
  {
    i <= m.start && m.end <= i + |out| &&
    out[m.start - i..m.end - i] == Splice(s, m, HashAfter(s, disk, m))
  }

  predicate SplicesMatches(s: string, disk: Disk, i: nat, out: string, ms: seq<Entry>)
    requires AllBounded(s, ms)
  {
    forall a :: 0 <= a < |ms| ==> SplicedAt(s, disk, i, out, ms[a])
  }

  lemma CoveredTail(m: Entry, later: seq<Entry>, k: nat)
    requires Covered(later, k)
    ensures Covered([m] + later, k)
  {
    var a :| 0 <= a < |later| && later[a].start <= k < later[a].end;
    assert ([m] + later)[a + 1] == later[a];
  }

  /** Copying one character in front of the output keeps it a copy of `s`
      outside the matches. */
  lemma CopiesAfterCopy(s: string, i: nat, rest: string, ms: seq<Entry>)
    requires i < |s| && i + 1 + |rest| <= |s| && CopiesOutside(s, i + 1, rest, ms)
    ensures CopiesOutside(s, i, [s[i]] + rest, ms)
  {
    var out := [s[i]] + rest;
    forall y | 0 <= y < |out| && !Covered(ms, i + y) ensures out[y] == s[i + y] {
      if y > 0 {
        assert out[y] == rest[y - 1];
      }
    }
  }

  /** Putting the text of a match in front of the output keeps it a copy of
      `s` outside the matches, the new match included. */
  lemma CopiesAfterMatch(s: string, m: Entry, e: string, rest: string, later: seq<Entry>)
    requires m.start < m.end && |e| == m.end - m.start && m.end + |rest| <= |s|
    requires CopiesOutside(s, m.end, rest, later)
    ensures CopiesOutside(s, m.start, e + rest, [m] + later)
  {
    var out, ms, i := e + rest, [m] + later, m.start;
    assert ms[0] == m;
    forall y | 0 <= y < |out| && !Covered(ms, i + y) ensures out[y] == s[i + y] {
      if y >= |e| {
        if Covered(later, i + y) {
          CoveredTail(m, later, i + y);
        }
        assert out[y] == rest[y - |e|];
        assert i + y == m.end + (y - |e|);
      }
    }
  }

  /** The pass copies every character that no visited match spans. */
  lemma {:induction false} SubstituteCopiesOutside(s: string, disk: Disk, i: nat)
    requires i <= |s|
    ensures CopiesOutside(s, i, Substitute(s, disk, i).text, Matches(s, i))
    decreases |s| - i
  {
    if i < |s| {
      match MatchAt(s, i)
      case None =>
        SubstituteCopiesOutside(s, disk, i + 1);
        CopiesAfterCopy(s, i, Substitute(s, disk, i + 1).text, Matches(s, i + 1));
      case Some(m) =>
        SubstituteCopiesOutside(s, disk, m.end);
        CopiesAfterMatch(s, m, ReplaceMatch(s, m, disk).text, Substitute(s, disk, m.end).text, Matches(s, m.end));
    }
  }

  /** Putting text in front of the output keeps a match in its span. */
  lemma SplicedShift(s: string, disk: Disk, i: nat, e: string, rest: string, n: Entry)
    requires Bounded(s, n) && SplicedAt(s, disk, i + |e|, rest, n)
    ensures SplicedAt(s, disk, i, e + rest, n)
  {
    SliceOfConcat(e, rest, n.start - i, n.end - i);
  }

  lemma SplicesAfterCopy(s: string, disk: Disk, i: nat, c: char, rest: string, ms: seq<Entry>)
    requires AllBounded(s, ms) && SplicesMatches(s, disk, i + 1, rest, ms)
    ensures SplicesMatches(s, disk, i, [c] + rest, ms)
  {
    forall a | 0 <= a < |ms| ensures SplicedAt(s, disk, i, [c] + rest, ms[a]) {
      SplicedShift(s, disk, i, [c], rest, ms[a]);
    }
  }

  lemma SplicedFront(s: string, disk: Disk, m: Entry, e: string, rest: string)
    requires Bounded(s, m) && e == Splice(s, m, HashAfter(s, disk, m))
    ensures SplicedAt(s, disk, m.start, e + rest, m)
  {
    assert (e + rest)[..|e|] == e;
  }

  /** Putting the replacement of a match in front of the output that follows
      it places that match and keeps every later one in its span. */
  lemma SplicesAfterMatch(s: string, disk: Disk, m: Entry, e: string, rest: string, later: seq<Entry>)
    requires Bounded(s, m) && AllBounded(s, later)
    requires e == Splice(s, m, HashAfter(s, disk, m))
    requires SplicesMatches(s, disk, m.end, rest, later)
    ensures AllBounded(s, [m] + later)
    ensures SplicesMatches(s, disk, m.start, e + rest, [m] + later)
  {
    var ms := [m] + later;
    assert ms[0] == m;
    SplicedFront(s, disk, m, e, rest);
    forall a | 0 < a < |ms| ensures Bounded(s, ms[a]) && SplicedAt(s, disk, m.start, e + rest, ms[a]) {
      assert ms[a] == later[a - 1];
      SplicedShift(s, disk, m.start, e, rest, later[a - 1]);
    }
  }

  /** Every visited match is replaced, in its own span, by what
      `replace_match` returns for it. */
  lemma {:induction false} SubstituteSplicesMatches(s: string, disk: Disk, i: nat)
    requires i <= |s|
    ensures AllBounded(s, Matches(s, i))
    ensures SplicesMatches(s, disk, i, Substitute(s, disk, i).text, Matches(s, i))
    decreases |s| - i
  {
    MatchesBounded(s, i);
    if i < |s| {
      match MatchAt(s, i)
      case None =>
        SubstituteSplicesMatches(s, disk, i + 1);
        SplicesAfterCopy(s, disk, i, s[i], Substitute(s, disk, i + 1).text, Matches(s, i + 1));
      case Some(m) =>
        SubstituteSplicesMatches(s, disk, m.end);
        SplicesAfterMatch(s, disk, m, ReplaceMatch(s, m, disk).text, Substitute(s, disk, m.end).text, Matches(s, m.end));
    }
  }

  /** The hash field of `m` is fenced by quotes in `s`. */
  predicate HashQuoted(s: string, m: Entry) {
    0 < m.hashStart && m.hashStart + HashLength < |s| &&
    s[m.hashStart - 1] == '"' && s[m.hashStart + HashLength] == '"' &&
    AllHex(s, m.hashStart, m.hashStart + HashLength)
  }

  /** Every match the engine returns has its hash between the quotes of
      `md5="..."`. */
  lemma MatchHashQuoted(s: string, i: nat)
    requires MatchAt(s, i).Some?
    ensures HashQuoted(s, MatchAt(s, i).value)
  {
    var m := MatchAt(s, i).value;
    MatchAtSound(s, i);
    assert s[m.hashStart - 1] == s[m.hashStart - 5..m.hashStart][4];
  }

  /** Every character of a quoted hash field is editable: a hex digit inside
      the quotes, next to at least one other digit. */
  lemma HashDigitEditable(s: string, m: Entry, x: nat)
    requires HashQuoted(s, m) && InHashField(m, x)
    ensures Editable(s, x)
  {
    assert IsHex(s[x]);
    if x > m.hashStart {
      assert IsHex(s[x - 1]);
    }
    if x + 1 < m.hashStart + HashLength {
      assert IsHex(s[x + 1]);
    }
  }

  /** Where an entry spliced with `h` stands in `t`, `t` agrees with `s`
      outside the hash field. */
  lemma SplicedOutside(s: string, t: string, m: Entry, h: string)
    requires Bounded(s, m) && |h| == HashLength && m.end <= |t|
    requires t[m.start..m.end] == Splice(s, m, h)
    ensures forall k :: m.start <= k < m.end && !InHashField(m, k) ==> t[k] == s[k]
  {
    SpliceRewritesOnlyHash(s, m, h);
    forall k | m.start <= k < m.end && !InHashField(m, k) ensures t[k] == s[k] {
      assert t[k] == t[m.start..m.end][k - m.start];
    }
  }

  /** Where an entry spliced with `h` stands in `t`, `t` holds `h` in the
      hash field. */
  lemma SplicedInside(s: string, t: string, m: Entry, h: string)
    requires Bounded(s, m) && |h| == HashLength && m.end <= |t|
    requires t[m.start..m.end] == Splice(s, m, h)
    ensures forall j :: 0 <= j < HashLength ==> t[m.hashStart + j] == h[j]
  {
    SpliceRewritesOnlyHash(s, m, h);
    forall j | 0 <= j < HashLength ensures t[m.hashStart + j] == h[j] {
      assert t[m.hashStart + j] == t[m.start..m.end][m.hashStart - m.start + j];
    }
  }

  /** A character that splicing a hex hash into a quoted hash field changes
      is an editable hash digit, and the new character is a hex digit. */
  lemma ChangedCharIsHashDigit(s: string, t: string, m: Entry, h: string, x: nat)
    requires Bounded(s, m) && HashQuoted(s, m) && |h| == HashLength && IsHexString(h)
    requires m.end <= |t| && m.start <= x < m.end && t[x] != s[x]
    requires forall k :: m.start <= k < m.end && !InHashField(m, k) ==> t[k] == s[k]
    requires forall j :: 0 <= j < HashLength ==> t[m.hashStart + j] == h[j]
    ensures InHashField(m, x) && Editable(s, x) && IsHex(t[x])
  {
    assert InHashField(m, x);
    HashDigitEditable(s, m, x);
    assert t[x] == h[x - m.hashStart];
  }

  /** The hash an entry carries after the pass is hex: the file's digest,
      or the recorded hash. */
  lemma HashAfterIsHex(s: string, disk: Disk, m: Entry)
    requires Bounded(s, m) && HashQuoted(s, m)
    ensures IsHexString(HashAfter(s, disk, m))
  {
    var h := HashAfter(s, disk, m);
    if PathOf(s, m) !in disk {
      forall j | 0 <= j < HashLength ensures IsHex(h[j]) {
        assert h[j] == s[m.hashStart + j];
      }
    }
  }

  /** For an entry the engine matches, the recorded hash is hex, and the
      test `old_md5.upper() != new_md5` is a case-insensitive comparison of
      the two hashes: the entry is counted exactly when its file exists and
      the digits differ in value. */
  lemma StaleMeansDigitsDiffer(s: string, disk: Disk, i: nat)
    requires MatchAt(s, i).Some?
    ensures var m := MatchAt(s, i).value;
      IsHexString(Recorded(s, m)) &&
      (IsStale(s, disk, m) <==> PathOf(s, m) in disk && !SameHexDigits(Recorded(s, m), disk[PathOf(s, m)]))
  {
    var m := MatchAt(s, i).value;
    MatchHashQuoted(s, i);
    var h := Recorded(s, m);
    forall j | 0 <= j < HashLength ensures IsHex(h[j]) {
      assert h[j] == s[m.hashStart + j];
    }
    if PathOf(s, m) in disk {
      UpperEqualsIffSameDigits(h, disk[PathOf(s, m)]);
    }
  }

  /** After one pass every visited entry names the same file, and records
      the file's digest when the file exists and its old hash otherwise. */
  lemma PassRecordsDigests(s: string, disk: Disk)
    ensures var t, ms := Substitute(s, disk, 0).text, Matches(s, 0);
      AllBounded(s, ms) && AllBounded(t, ms) &&
      forall a :: 0 <= a < |ms| ==>
        PathOf(t, ms[a]) == PathOf(s, ms[a]) &&
        (PathOf(s, ms[a]) in disk ==> Recorded(t, ms[a]) == disk[PathOf(s, ms[a])]) &&
        (PathOf(s, ms[a]) !in disk ==> Recorded(t, ms[a]) == Recorded(s, ms[a]))
  {
    var t, ms := Substitute(s, disk, 0).text, Matches(s, 0);
    SubstituteSplicesMatches(s, disk, 0);
    forall a | 0 <= a < |ms|
      ensures Bounded(t, ms[a]) && PathOf(t, ms[a]) == PathOf(s, ms[a]) &&
              Recorded(t, ms[a]) == HashAfter(s, disk, ms[a])
    {
      assert SplicedAt(s, disk, 0, t, ms[a]);
      SplicedFields(s, t, ms[a], HashAfter(s, disk, ms[a]));
    }
  }

  /** A character the pass changes lies in the hash field of the visited
      entry that spans it; it is an editable hash digit and becomes a hex
      digit. */
  lemma ChangedCharInVisitedHash(s: string, disk: Disk, t: string, ms: seq<Entry>, x: nat) returns (a: nat)
    requires |t| == |s| && AllBounded(s, ms)
    requires CopiesOutside(s, 0, t, ms) && SplicesMatches(s, disk, 0, t, ms)
    requires forall b :: 0 <= b < |ms| ==> MatchAt(s, ms[b].start) == Some(ms[b])
    requires x < |s| && s[x] != t[x]
    ensures a < |ms| && InHashField(ms[a], x) && Editable(s, x) && IsHex(t[x])
  {
    assert Covered(ms, 0 + x);
    a :| 0 <= a < |ms| && ms[a].start <= x < ms[a].end;
    var m := ms[a];
    MatchHashQuoted(s, m.start);
    assert SplicedAt(s, disk, 0, t, m);
    var h := HashAfter(s, disk, m);
    HashAfterIsHex(s, disk, m);
    SplicedOutside(s, t, m, h);
    SplicedInside(s, t, m, h);
    ChangedCharIsHashDigit(s, t, m, h, x);
  }

  /** The text after one pass is a hex edit of the text before it: only hash
      digits change, and only into hash digits. Every changed character lies
      in the `md5="..."` field of a visited entry. */
  lemma PassIsHexEdit(s: string, disk: Disk)
    ensures HexEdit(s, Substitute(s, disk, 0).text)
    ensures forall x :: 0 <= x < |s| && s[x] != Substitute(s, disk, 0).text[x] ==>
      InSomeHashField(Matches(s, 0), x)
  {
    var t, ms := Substitute(s, disk, 0).text, Matches(s, 0);
    SubstituteCopiesOutside(s, disk, 0);
    SubstituteSplicesMatches(s, disk, 0);
    MatchesAreEngineMatches(s, 0);
    forall x | 0 <= x < |s| && s[x] != t[x]
      ensures Editable(s, x) && IsHex(t[x]) && InSomeHashField(ms, x)
    {
      var a := ChangedCharInVisitedHash(s, disk, t, ms, x);
    }
  }

  /** A hex edit is visited at the same entries. */
  lemma {:induction false} MatchesStable(s: string, t: string, i: nat)
    requires HexEdit(s, t) && i <= |s|
    ensures Matches(s, i) == Matches(t, i)
    decreases |s| - i
  {
    MatchAtStable(s, t, i);
    if i < |s| {
      match MatchAt(s, i)
      case None =>
        MatchesStable(s, t, i + 1);
      case Some(m) =>
        MatchesStable(s, t, m.end);
    }
  }

  /** `replace_match` applied to its own output gives it back and does not
      count it: the hash field already holds the file's digest (or the
      untouched recorded hash, when the file is missing). */
  lemma ReplaceMatchIdempotent(s: string, t: string, disk: Disk, m: Entry)
    requires Bounded(s, m) && Bounded(t, m)
    requires t[m.start..m.end] == ReplaceMatch(s, m, disk).text
    ensures ReplaceMatch(t, m, disk).text == t[m.start..m.end]
    ensures !ReplaceMatch(t, m, disk).counted
  {
    SplicedFields(s, t, m, HashAfter(s, disk, m));
    assert HashAfter(t, disk, m) == Recorded(t, m);
    if PathOf(t, m) in disk {
      UpperOfUpperHex(disk[PathOf(t, m)]);
    }
    SpliceOwnHash(t, m);
  }

  /** Running the pass again over what it produced, from any position it
      reaches, gives the same text and counts nothing. */
  lemma {:induction false} RerunFrom(s: string, t: string, disk: Disk, i: nat)
    requires HexEdit(s, t) && i <= |s|
    requires t[i..] == Substitute(s, disk, i).text
    ensures Substitute(t, disk, i).text == t[i..]
    ensures Substitute(t, disk, i).updated == 0
    decreases |s| - i
  {
    MatchAtStable(s, t, i);
    if i < |s| {
      match MatchAt(s, i)
      case None =>
        SplitConcat(t[i..], [s[i]], Substitute(s, disk, i + 1).text);
        SliceOfSlice(t, i, i + 1);
        RerunFrom(s, t, disk, i + 1);
        assert t[i..] == [t[i]] + t[i + 1..];
      case Some(m) =>
        SplitConcat(t[i..], ReplaceMatch(s, m, disk).text, Substitute(s, disk, m.end).text);
        SliceOfSlice(t, i, m.end);
        RerunFrom(s, t, disk, m.end);
        ReplaceMatchIdempotent(s, t, disk, m);
        assert t[i..] == t[i..m.end] + t[m.end..];
    }
  }

  /** Fixpoint: when the referenced files have not changed, a second pass over
      the rewritten manifest visits the same entries, counts nothing (so
      nothing would be written) and returns the text unchanged. */
  lemma SecondPassChangesNothing(s: string, disk: Disk)
    ensures var t := Substitute(s, disk, 0).text;
      Matches(t, 0) == Matches(s, 0) &&
      Substitute(t, disk, 0).text == t &&
      Substitute(t, disk, 0).updated == 0
  {
    var t := Substitute(s, disk, 0).text;
    PassIsHexEdit(s, disk);
    MatchesStable(s, t, 0);
    assert t[0..] == t;
    RerunFrom(s, t, disk, 0);
  }

  /** A manifest with no entry comes back unchanged, with nothing counted and
      nothing printed by the pass. */
  lemma {:induction false} NoEntriesNoChange(s: string, disk: Disk, i: nat)
    requires i <= |s| && Matches(s, i) == []
    ensures Substitute(s, disk, i) == Pass(s[i..], 0, [])
    decreases |s| - i
  {
    if i < |s| {
      match MatchAt(s, i)
      case None =>
        NoEntriesNoChange(s, disk, i + 1);
        assert s[i..] == [s[i]] + s[i + 1..];
      case Some(_) =>
    }
  }
}
