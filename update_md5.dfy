/** The rewriting pass of civ5-mod/update_md5.py: every entry of the manifest
    that names an existing file gets that file's current MD5, the entries
    whose hash really changed are counted and logged, and the manifest is
    written back only when the count is not zero. */
module UpdateMd5 {
  import opened Chars
  import opened Pattern
  import opened Decimal
  import opened Seqs

  predicate IsDigest(h: string) {
    |h| == HashLength && IsUpperHexString(h)
  }

  /** What `hashlib.md5(...).hexdigest().upper()` returns. */
  type Digest = h: string | IsDigest(h) witness "00000000000000000000000000000000"

  /** The files beside the manifest, keyed by the relative path the manifest
      names: a path is a key exactly when that file exists, and it maps to the
      digest of the file's bytes. */
  type Disk = map<string, Digest>

  /** Group 2: the hash recorded in the entry. */
  function Recorded(s: string, m: Entry): (h: string)
    requires Bounded(s, m)
    ensures |h| == HashLength
  {
    s[m.hashStart..m.hashStart + HashLength]
  }

  /** Group 4: the relative path of the referenced file. */
  function PathOf(s: string, m: Entry): string
    requires Bounded(s, m)
  {
    s[m.pathStart..m.pathEnd]
  }

  /** The referenced file exists and its digest differs from the recorded
      hash once that is upper-cased. */
  predicate IsStale(s: string, disk: Disk, m: Entry)
    requires Bounded(s, m)
    ensures IsStale(s, disk, m) ==> PathOf(s, m) in disk && Recorded(s, m) != disk[PathOf(s, m)]
  {
    PathOf(s, m) in disk &&
    var digest := disk[PathOf(s, m)];
    UpperOfUpperHex(digest);
    Upper(Recorded(s, m)) != digest
  }

  /** The hash the entry carries after the pass: the file's digest when the
      file exists, the recorded hash otherwise. */
  function HashAfter(s: string, disk: Disk, m: Entry): (h: string)
    requires Bounded(s, m)
    ensures |h| == HashLength
    ensures PathOf(s, m) in disk ==> IsUpperHexString(h)
    ensures PathOf(s, m) !in disk ==> h == s[m.hashStart..m.hashStart + HashLength]
  {
    if PathOf(s, m) in disk then disk[PathOf(s, m)] else Recorded(s, m)
  }

  /** The lines one entry prints: a missing-file line, or an update line with
      the recorded hash in upper case and the new digest, or nothing. */
  function EntryLog(s: string, disk: Disk, m: Entry): (r: seq<string>)
    requires Bounded(s, m)
    ensures |r| <= 1
    ensures r == [] <==> PathOf(s, m) in disk && !IsStale(s, disk, m)
  {
    var path := PathOf(s, m);
    if path !in disk then ["  MISSING: " + path]
    else if IsStale(s, disk, m) then ["  " + path + ": " + Upper(Recorded(s, m)) + " -> " + disk[path]]
    else []
  }

  /** The entry `s[m.start..m.end]` with its hash field replaced by `h`. */
  function Splice(s: string, m: Entry, h: string): (r: string)
    requires Bounded(s, m) && |h| == HashLength
    ensures |r| == m.end - m.start
  {
    s[m.start..m.hashStart] + h + s[m.hashStart + HashLength..m.end]
  }

  /** Splicing keeps every character outside the hash field and puts `h`
      into it. */
  lemma SpliceRewritesOnlyHash(s: string, m: Entry, h: string)
    requires Bounded(s, m) && |h| == HashLength
    ensures forall k :: m.start <= k < m.end && !(m.hashStart <= k < m.hashStart + HashLength) ==>
              Splice(s, m, h)[k - m.start] == s[k]
    ensures forall j :: 0 <= j < HashLength ==> Splice(s, m, h)[m.hashStart - m.start + j] == h[j]
  {
    var r := Splice(s, m, h);
    var a, b := s[m.start..m.hashStart], s[m.hashStart + HashLength..m.end];
    assert r == a + h + b;
    forall k | m.start <= k < m.end && !(m.hashStart <= k < m.hashStart + HashLength)
      ensures r[k - m.start] == s[k]
    {
      if k < m.hashStart {
        assert r[k - m.start] == a[k - m.start];
      } else {
        assert r[k - m.start] == b[k - m.hashStart - HashLength];
      }
    }
    forall j | 0 <= j < HashLength ensures r[m.hashStart - m.start + j] == h[j] {
      assert r[m.hashStart - m.start + j] == (a + h)[|a| + j];
    }
  }

  /** What `replace_match` returns for one match, with the increment of
      `updated` and the printed lines it causes. */
  datatype Replacement = Replacement(text: string, counted: bool, log: seq<string>)

  /** Splicing the recorded hash back in gives the entry unchanged. */
  lemma SpliceOwnHash(s: string, m: Entry)
    requires Bounded(s, m)
    ensures Splice(s, m, Recorded(s, m)) == s[m.start..m.end]
  {
    assert s[m.start..m.end] == s[m.start..m.hashStart] + Recorded(s, m) + s[m.hashStart + HashLength..m.end];
  }

  /** The middle part of a three-part concatenation. */
  lemma MiddleOfConcat(p: string, q: string, r: string)
    ensures (p + q + r)[|p|..|p| + |q|] == q
  {
    assert (p + q + r)[|p|..|p| + |q|] == (p + q)[|p|..|p| + |q|];
  }

  /** Where an entry spliced with `h` stands in `t`, `t` records `h`. */
  lemma SplicedHash(s: string, t: string, m: Entry, h: string)
    requires Bounded(s, m) && Bounded(t, m) && |h| == HashLength
    requires t[m.start..m.end] == Splice(s, m, h)
    ensures Recorded(t, m) == h
  {
    var head := s[m.start..m.hashStart];
    SubSlice(t, m.start, m.end, |head|, |head| + HashLength);
    MiddleOfConcat(head, h, s[m.hashStart + HashLength..m.end]);
  }

  /** Where an entry spliced with `h` stands in `t`, `t` names the same file. */
  lemma SplicedPath(s: string, t: string, m: Entry, h: string)
    requires Bounded(s, m) && Bounded(t, m) && |h| == HashLength
    requires t[m.start..m.end] == Splice(s, m, h)
    ensures PathOf(t, m) == PathOf(s, m)
  {
    var front, tail := s[m.start..m.hashStart] + h, s[m.hashStart + HashLength..m.end];
    var p, q := m.pathStart - m.start, m.pathEnd - m.start;
    SubSlice(t, m.start, m.end, p, q);
    SliceOfConcat(front, tail, p, q);
    SubSlice(s, m.hashStart + HashLength, m.end, p - |front|, q - |front|);
  }

  lemma SplicedFields(s: string, t: string, m: Entry, h: string)
    requires Bounded(s, m) && Bounded(t, m) && |h| == HashLength
    requires t[m.start..m.end] == Splice(s, m, h)
    ensures PathOf(t, m) == PathOf(s, m) && Recorded(t, m) == h
  {
    SplicedHash(s, t, m, h);
    SplicedPath(s, t, m, h);
  }

  /** Splicing `h` in leaves the entry as it was exactly when `h` is the
      recorded hash. */
  lemma SpliceKeepsIff(s: string, m: Entry, h: string)
    requires Bounded(s, m) && |h| == HashLength
    ensures Splice(s, m, h) == s[m.start..m.end] <==> h == Recorded(s, m)
  {
    SpliceOwnHash(s, m);
    if Splice(s, m, h) == s[m.start..m.end] {
      SplicedFields(s, s, m, h);
    }
  }

  /** What `replace_match` does to one match: the entry with its hash field
      holding the hash it carries after the pass, counted when the file is
      stale, printing the entry's lines. */
  function ReplaceMatch(s: string, m: Entry, disk: Disk): (r: Replacement)
    requires Bounded(s, m)
    ensures |r.text| == m.end - m.start
  {
    Replacement(Splice(s, m, HashAfter(s, disk, m)), IsStale(s, disk, m), EntryLog(s, disk, m))
  }

  /** Only the 32 hash characters of an entry can change: they become the
      file's digest when the file exists (upper case, even when only the case
      differed) and stay as recorded when it is missing. */
  lemma ReplaceMatchRewritesOnlyHash(s: string, m: Entry, disk: Disk)
    requires Bounded(s, m)
    ensures forall k :: m.start <= k < m.end && !(m.hashStart <= k < m.hashStart + HashLength) ==>
              ReplaceMatch(s, m, disk).text[k - m.start] == s[k]
    ensures forall j :: 0 <= j < HashLength ==>
              ReplaceMatch(s, m, disk).text[m.hashStart - m.start + j] == HashAfter(s, disk, m)[j]
  {
    SpliceRewritesOnlyHash(s, m, HashAfter(s, disk, m));
  }

  /** A missing file leaves its entry as it was, uncounted, with one
      `  MISSING: <path>` line. */
  lemma MissingFileKeepsEntry(s: string, m: Entry, disk: Disk)
    requires Bounded(s, m) && PathOf(s, m) !in disk
    ensures ReplaceMatch(s, m, disk) == Replacement(s[m.start..m.end], false, ["  MISSING: " + PathOf(s, m)])
  {
    SpliceOwnHash(s, m);
  }

  /** The spliced entry is groups 1, 3, 4 and 5 around `h`. */
  lemma SpliceGroups(s: string, m: Entry, h: string)
    requires Bounded(s, m) && |h| == HashLength
    ensures Splice(s, m, h) ==
      s[m.start..m.hashStart] + h + s[m.hashStart + HashLength..m.pathStart] + PathOf(s, m) + s[m.pathEnd..m.end]
  {
    assert s[m.hashStart + HashLength..m.end] ==
           s[m.hashStart + HashLength..m.pathStart] + PathOf(s, m) + s[m.pathEnd..m.end];
  }

  /** An existing file: the entry is rebuilt from groups 1, 3, 4 and 5 around
      the file's digest, and it is counted, with one line giving the recorded
      hash in upper case and the digest, exactly when the two differ once the
      recorded hash is upper-cased. */
  lemma ExistingFileEntry(s: string, m: Entry, disk: Disk)
    requires Bounded(s, m) && PathOf(s, m) in disk
    ensures var path, digest := PathOf(s, m), disk[PathOf(s, m)];
      var recorded := Upper(Recorded(s, m));
      ReplaceMatch(s, m, disk) ==
        Replacement(s[m.start..m.hashStart] + digest + s[m.hashStart + HashLength..m.pathStart] + path + s[m.pathEnd..m.end],
                    recorded != digest,
                    if recorded != digest then ["  " + path + ": " + recorded + " -> " + digest] else [])
  {
    SpliceGroups(s, m, disk[PathOf(s, m)]);
  }

  /** A recorded hash that differs from the file's digest only in letter
      case is not counted and prints nothing; the entry still comes back
      with the digest in place of the recorded hash, so its text is kept
      exactly when the recorded hash already was the upper-case digest. */
  lemma CaseOnlyDifference(s: string, m: Entry, disk: Disk)
    requires Bounded(s, m) && PathOf(s, m) in disk && IsHexString(Recorded(s, m))
    requires SameHexDigits(Recorded(s, m), disk[PathOf(s, m)])
    ensures !ReplaceMatch(s, m, disk).counted && ReplaceMatch(s, m, disk).log == []
    ensures ReplaceMatch(s, m, disk).text == s[m.start..m.end] <==> Recorded(s, m) == disk[PathOf(s, m)]
  {
    UpperEqualsIffSameDigits(Recorded(s, m), disk[PathOf(s, m)]);
    SpliceKeepsIff(s, m, disk[PathOf(s, m)]);
  }

  /** The outcome of `FILE_RE.sub(replace_match, text)`: the new text, the
      final value of `updated` and the lines printed along the way. */
  datatype Pass = Pass(text: string, updated: nat, log: seq<string>)

  /** The substitution pass over `s[i..]`: at each position either a match
      starts, and is replaced, or the character is copied and the scan moves
      on by one. */
  function Substitute(s: string, disk: Disk, i: nat): (r: Pass)
    requires i <= |s|
    ensures |r.text| == |s| - i
    decreases |s| - i
  {
    if i == |s| then Pass("", 0, [])
    else
      match MatchAt(s, i)
      case None =>
        var rest := Substitute(s, disk, i + 1);
        Pass([s[i]] + rest.text, rest.updated, rest.log)
      case Some(m) =>
        var e := ReplaceMatch(s, m, disk);
        var rest := Substitute(s, disk, m.end);
        Pass(e.text + rest.text, (if e.counted then 1 else 0) + rest.updated, e.log + rest.log)
  }

  /** Some match of `ms` spans position `k`. */
  predicate Covered(ms: seq<Entry>, k: nat) {
    exists a :: 0 <= a < |ms| && ms[a].start <= k < ms[a].end
  }

  /** The matches the pass visits in `s[i..]`, in order: what
      `FILE_RE.finditer` yields. */
  function Matches(s: string, i: nat): (ms: seq<Entry>)
    requires i <= |s|
    ensures |ms| <= |s| - i
    ensures ms != [] ==> i <= ms[0].start && ms[|ms| - 1].end <= |s|
    decreases |s| - i
  {
    if i == |s| then []
    else
      match MatchAt(s, i)
      case None => Matches(s, i + 1)
      case Some(m) => [m] + Matches(s, m.end)
  }

  /** `ms` is what a left-to-right scan from `i` can visit: each entry is
      the engine's match at its start, and starts at or after the end of the
      entry before it (at or after `i`, for the first). */
  predicate Scanned(s: string, ms: seq<Entry>, i: nat)
    decreases |ms|
  {
    ms == [] ||
    (i <= ms[0].start && MatchAt(s, ms[0].start) == Some(ms[0]) && Scanned(s, ms[1..], ms[0].end))
  }

  lemma {:induction false} MatchesScanned(s: string, i: nat)
    requires i <= |s|
    ensures Scanned(s, Matches(s, i), i)
    decreases |s| - i
  {
    if i < |s| {
      match MatchAt(s, i)
      case None =>
        MatchesScanned(s, i + 1);
      case Some(m) =>
        var rest := Matches(s, m.end);
        MatchesScanned(s, m.end);
        assert ([m] + rest)[1..] == rest;
    }
  }

  /** What a scan visits, entry by entry. */
  lemma {:induction false} ScannedEntry(s: string, ms: seq<Entry>, i: nat, a: nat)
    requires Scanned(s, ms, i) && a < |ms|
    ensures i <= ms[a].start && MatchAt(s, ms[a].start) == Some(ms[a])
    ensures 0 < a ==> ms[a - 1].end <= ms[a].start
    decreases a
  {
    if 0 < a {
      ScannedEntry(s, ms[1..], ms[0].end, a - 1);
      assert ms[1..][a - 1] == ms[a];
      if 1 < a {
        assert ms[1..][a - 2] == ms[a - 1];
      }
    }
  }

  /** The visited matches are the engine's matches at their starts. */
  lemma MatchesAreEngineMatches(s: string, i: nat)
    requires i <= |s|
    ensures forall a :: 0 <= a < |Matches(s, i)| ==>
              i <= Matches(s, i)[a].start && MatchAt(s, Matches(s, i)[a].start) == Some(Matches(s, i)[a])
  {
    MatchesScanned(s, i);
    forall a | 0 <= a < |Matches(s, i)|
      ensures i <= Matches(s, i)[a].start && MatchAt(s, Matches(s, i)[a].start) == Some(Matches(s, i)[a])
    {
      ScannedEntry(s, Matches(s, i), i, a);
    }
  }

  /** The visited matches come left to right without overlapping. */
  lemma MatchesInOrder(s: string, i: nat)
    requires i <= |s|
    ensures forall a :: 0 < a < |Matches(s, i)| ==> Matches(s, i)[a - 1].end <= Matches(s, i)[a].start
  {
    MatchesScanned(s, i);
    forall a | 0 < a < |Matches(s, i)| ensures Matches(s, i)[a - 1].end <= Matches(s, i)[a].start {
      ScannedEntry(s, Matches(s, i), i, a);
    }
  }

  lemma CoveredAfterMiss(s: string, i: nat, k: nat)
    requires i < |s| && MatchAt(s, i).None? && Covered(Matches(s, i + 1), k)
    ensures Covered(Matches(s, i), k)
  {
    assert Matches(s, i) == Matches(s, i + 1);
  }

  lemma CoveredByHit(s: string, i: nat, m: Entry, k: nat)
    requires i < |s| && MatchAt(s, i) == Some(m) && i <= k < m.end
    ensures Covered(Matches(s, i), k)
  {
    assert Matches(s, i)[0] == m;
  }

  lemma CoveredAfterHit(s: string, i: nat, m: Entry, k: nat)
    requires i < |s| && MatchAt(s, i) == Some(m) && Covered(Matches(s, m.end), k)
    ensures Covered(Matches(s, i), k)
  {
    var rest := Matches(s, m.end);
    assert Matches(s, i) == [m] + rest;
    var a :| 0 <= a < |rest| && rest[a].start <= k < rest[a].end;
    assert Matches(s, i)[a + 1] == rest[a];
  }

  /** A position `k` at or after `i` where the pattern could match lies
      within one of the matches visited from `i`. */
  lemma {:induction false} MatchCovered(s: string, i: nat, k: nat)
    requires i <= k < |s| && MatchAt(s, k).Some?
    ensures Covered(Matches(s, i), k)
    decreases |s| - i
  {
    match MatchAt(s, i)
    case None =>
      MatchCovered(s, i + 1, k);
      CoveredAfterMiss(s, i, k);
    case Some(m) =>
      if k < m.end {
        CoveredByHit(s, i, m, k);
      } else {
        MatchCovered(s, m.end, k);
        CoveredAfterHit(s, i, m, k);
      }
  }

  /** Every position at or after `i` where the pattern could match lies
      within one of the visited matches: the scan skips no match. */
  lemma MatchesCoverEveryMatch(s: string, i: nat)
    requires i <= |s|
    ensures forall k :: i <= k < |s| && MatchAt(s, k).Some? ==> Covered(Matches(s, i), k)
  {
    forall k | i <= k < |s| && MatchAt(s, k).Some? ensures Covered(Matches(s, i), k) {
      MatchCovered(s, i, k);
    }
  }

  /** The `replace_match` closure: returns the replacement text, whether it
      bumped `updated`, and the lines it printed. */
  method ReplaceEntry(text: string, m: Entry, disk: Disk) returns (piece: string, counted: bool, lines: seq<string>)
    requires Bounded(text, m)
    ensures Replacement(piece, counted, lines) == ReplaceMatch(text, m, disk)
  {
    var path := text[m.pathStart..m.pathEnd];
    counted, lines := false, [];
    if path !in disk {
      lines := ["  MISSING: " + path];
      piece := text[m.start..m.end];
      MissingFileKeepsEntry(text, m, disk);
      return;
    }
    var newMd5 := disk[path];
    var oldMd5 := Upper(text[m.hashStart..m.hashStart + HashLength]);
    if oldMd5 != newMd5 {
      lines := ["  " + path + ": " + oldMd5 + " -> " + newMd5];
      counted := true;
    }
    piece := text[m.start..m.hashStart] + newMd5 + text[m.hashStart + HashLength..m.pathStart] +
             path + text[m.pathEnd..m.end];
    ExistingFileEntry(text, m, disk);
  }

  /** The outcome of doing `a`, then `b`. */
  function Then(a: Pass, b: Pass): Pass {
    Pass(a.text + b.text, a.updated + b.updated, a.log + b.log)
  }

  lemma ThenAssociative(a: Pass, b: Pass, c: Pass)
    ensures Then(Then(a, b), c) == Then(a, Then(b, c))
  {
    assert (a.text + b.text) + c.text == a.text + (b.text + c.text);
    assert (a.log + b.log) + c.log == a.log + (b.log + c.log);
  }

  /** One step of `FILE_RE.sub`'s scan at `i`: the engine's match there goes
      through `replace_match`; without a match the character is copied. The
      step's outcome followed by the rest of the pass is the pass from `i`. */
  method ScanStep(text: string, disk: Disk, i: nat) returns (step: Pass, next: nat)
    requires i < |text|
    ensures i < next <= |text|
    ensures Substitute(text, disk, i) == Then(step, Substitute(text, disk, next))
  {
    match MatchAt(text, i)
    case None =>
      step, next := Pass([text[i]], 0, []), i + 1;
    case Some(m) =>
      var piece, counted, lines := ReplaceEntry(text, m, disk);
      step, next := Pass(piece, if counted then 1 else 0, lines), m.end;
  }

  /** `main`'s scan: `FILE_RE.sub(replace_match, text)`, building the new
      text left to right while `updated` and the printed lines accumulate. */
  method SubstituteHashes(text: string, disk: Disk) returns (newText: string, updated: nat, log: seq<string>)
    ensures Pass(newText, updated, log) == Substitute(text, disk, 0)
  {
    newText, updated, log := "", 0, [];
    var i := 0;
    assert Then(Pass(newText, updated, log), Substitute(text, disk, i)) == Substitute(text, disk, 0);
    while i < |text|
      invariant i <= |text|
      invariant Then(Pass(newText, updated, log), Substitute(text, disk, i)) == Substitute(text, disk, 0)
      decreases |text| - i
    {
      var step, next := ScanStep(text, disk, i);
      ThenAssociative(Pass(newText, updated, log), step, Substitute(text, disk, next));
      newText, updated, log := newText + step.text, updated + step.updated, log + step.log;
      i := next;
    }
    assert Substitute(text, disk, i) == Pass("", 0, []);
    assert newText + "" == newText && log + [] == log;
  }

  /** The closing line `main` prints. */
  function Summary(updated: nat): (line: string)
    ensures line == "All hashes up to date." <==> updated == 0
  {
    if updated > 0 then
      var line := "Updated " + NatToString(updated) + " hash(es).";
      assert line[0] == 'U';
      line
    else "All hashes up to date."
  }

  /** The "Updated N hash(es)." line carries the count exactly: between its
      fixed prefix and suffix stand only digits, and they read back as N. */
  lemma SummaryReportsCount(updated: nat)
    requires updated > 0
    ensures var line := Summary(updated);
      |line| > 18 && line[..8] == "Updated " && line[|line| - 10..] == " hash(es)." &&
      (forall k :: 8 <= k < |line| - 10 ==> IsDigit(line[k])) &&
      Value(line[8..|line| - 10]) == updated
  {
    var digits := NatToString(updated);
    var line := Summary(updated);
    assert line == "Updated " + digits + " hash(es).";
    assert line[8..|line| - 10] == digits;
    ValueOfNatToString(updated);
  }

  /** `main`: run the pass over the manifest text; the manifest is written
      back, with the new text, exactly when some hash was updated, and the
      output is the pass's lines followed by the summary. */
  method Synchronize(text: string, disk: Disk) returns (written: Option<string>, output: seq<string>)
    ensures var r := Substitute(text, disk, 0);
      (written.Some? <==> r.updated > 0) &&
      (written.Some? ==> written.value == r.text) &&
      output == r.log + [Summary(r.updated)]
  {
    var newText, updated, log := SubstituteHashes(text, disk);
    if updated > 0 {
      written := Some(newText);
      output := log + ["Updated " + NatToString(updated) + " hash(es)."];
    } else {
      written := None;
      output := log + ["All hashes up to date."];
    }
  }
}
