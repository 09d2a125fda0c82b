# update_md5 — a verified model of the manifest hash updater

`civ5-mod/update_md5.py` keeps the MD5 hashes in the `VoxDeorum.modinfo`
manifest in step with the files the manifest lists. It scans the manifest for
entries of the shape

    <File md5="HASH" import="D">PATH</File>

with the regular expression `FILE_RE`. It rebuilds every entry through the
`replace_match` closure:
- when the file exists, the entry gets the file's current upper-case MD5;
- the entry is counted, with an `  PATH: OLD -> NEW` line, when the upper-cased
  recorded hash differs from that MD5;
- when the file is missing, the entry stays as it was and an `  MISSING: PATH`
  line is printed.

Finally `main` writes the new text back only when something was counted, and
prints a summary line.

The model is split into these modules:
- `Chars` (chars.dfy): the character classes (`\s`, hex digits) and `str.upper()`.
- `Decimal` (decimal.dfy): the decimal numeral in the summary line.
- `Pattern` (pattern.dfy): `FILE_RE` as a hand-written matcher `MatchAt` at
  one position. The five capture groups are given by an `Entry` of boundaries.
  `IsEntryAt` describes every way the pattern can match. The lemmas prove that
  the matcher returns exactly the match Python's engine picks there.
- `HexEdits` (hexedit.dfy): rewriting hash digits never moves a match.
- `UpdateMd5` (update_md5.dfy):
  - `replace_match`, as the function `ReplaceMatch` and as the
    method `ReplaceEntry`;
  - the `FILE_RE.sub` pass, as the function `Substitute` and as the loop
    `SubstituteHashes`;
  - the count and write-back of `main`, in `Synchronize`.
- `UpdateMd5Properties` (properties.dfy): what the pass guarantees, stated
  over the matches it visits. This includes the fixpoint: a second run changes
  nothing.
- `Seqs` (seqs.dfy): a few slicing facts.

The file system and `md5_of` are one oracle, `Disk`. It maps the relative
path written in an entry to the digest of that file. A path is a key exactly
when the file exists, and every digest is 32 upper-case hex characters. The
manifest write is the `Option<string>` returned by `Synchronize`: `None` means
nothing is written. The printed lines are returned as a sequence of strings.

A recorded hash that differs from the digest only in letter case is neither
counted nor logged (lines 28-29). Line 32 still returns the entry with
`new_md5`, so that entry comes back in upper case.
`UpdateMd5.CaseOnlyDifference` states this.

## Model

| member | source | states |
|---|---|---|
| Pattern.IsEntryAt | civ5-mod/update_md5.py:9 | Defines the pattern's language: `<File`, whitespace, `md5="`, the hash, the import attribute, the path and `</File>`. Every way to match has its group boundaries in order inside the text. |
| Pattern.MatchAt | civ5-mod/update_md5.py:9 | A match reported at `i` starts at `i`, is non-empty, and has its five groups in order inside the text. |
| Pattern.MatchAtIsShortestEntry | civ5-mod/update_md5.py:9 | The matcher finds a match at a position exactly when the pattern can match there. What it returns is a match of the pattern, and its path is no longer than any other: the lazy `.+?` stops at the first `</File>`. |
| Pattern.MatchAtSound | civ5-mod/update_md5.py:9 | A match returned at `i` is `<File`, whitespace, `md5="`, 32 hex digits, `"`, whitespace, `import="`, a `0`/`1` flag, `">`, a non-empty newline-free path, then `</File>`. |
| Pattern.MatchAtFindsShortest | civ5-mod/update_md5.py:9 | For any way the pattern can match at `i`, the matcher finds a match whose path ends no later. |
| Pattern.EntryPrefixDetermined | civ5-mod/update_md5.py:9 | Two ways to match at the same position agree on groups 1 to 3: both whitespace runs are forced. |
| Pattern.EntryDeterminedByPathEnd | civ5-mod/update_md5.py:9 | Two ways to match at the same position with the same path end are the same match. |
| Pattern.HashStartAtSound | civ5-mod/update_md5.py:9 | The group-1 scanner only reports `<File`, one or more whitespace characters and `md5="`. |
| Pattern.PathStartAtSound | civ5-mod/update_md5.py:9 | The group-2/3 scanner only reports 32 hex digits, `"`, whitespace, `import="`, a flag and `">`. |
| Pattern.HashStartOfEntry | civ5-mod/update_md5.py:9 | Wherever group 1 can end, the scanner reports that end. |
| Pattern.PathStartOfEntry | civ5-mod/update_md5.py:9 | Wherever groups 2 and 3 can end, the scanner reports that end. |
| Pattern.SpaceEndSound | civ5-mod/update_md5.py:9 | `\s+` takes the whole whitespace run and stops at the first non-space. |
| Pattern.SpaceEndIsRunEnd | civ5-mod/update_md5.py:9 | A whitespace run followed by a non-space ends where the scanner says. |
| Pattern.PathEndSound | civ5-mod/update_md5.py:9 | The path scan returns the first `</File>` with no newline before it, and returns none exactly when no such `</File>` exists. |
| HexEdits.MatchAtStable | civ5-mod/update_md5.py:9 | Replacing hash digits by hash digits leaves the match at every position unchanged. |
| HexEdits.EntryStable | civ5-mod/update_md5.py:9 | A way to match survives replacing hash digits by hash digits. |
| Chars.IsSpace | civ5-mod/update_md5.py:9 | `\s` accepts space, tab, newline and carriage return. It never accepts a hex digit, `"`, `<`, `m` or `i`, so a whitespace run cannot swallow the literal that follows it. |
| Chars.Upper | civ5-mod/update_md5.py:28 | `upper()` keeps the length of the hash. |
| Chars.UpperPointwise | civ5-mod/update_md5.py:28 | `upper()` maps each character on its own. |
| Chars.UpperEqualsIffSameDigits | civ5-mod/update_md5.py:28-29 | `old.upper() == new` holds exactly when the two hashes have the same hex digits, ignoring case. |
| Chars.UpperOfUpperHex | civ5-mod/update_md5.py:13 | Upper-casing an upper-case digest leaves it unchanged. |
| Decimal.NatToString | civ5-mod/update_md5.py:38 | The numeral printed for the count is non-empty and all digits, with no leading zero. |
| Decimal.ValueOfNatToString | civ5-mod/update_md5.py:38 | Reading the printed numeral back gives the count. |
| UpdateMd5.IsStale | civ5-mod/update_md5.py:28-29 | An entry counted as stale names an existing file whose digest is not already the recorded text. |
| UpdateMd5.HashAfter | civ5-mod/update_md5.py:24-32 | The hash an entry carries after the pass is 32 characters: the file's upper-case digest when the file exists, the recorded hash characters otherwise. |
| UpdateMd5.EntryLog | civ5-mod/update_md5.py:24-31 | An entry prints at most one line, and prints none exactly when its file exists and is up to date. |
| UpdateMd5.Recorded | civ5-mod/update_md5.py:28 | Group 2 is 32 characters. |
| UpdateMd5.ReplaceEntry | civ5-mod/update_md5.py:20-32 | The closure's result (text, increment of `updated`, printed lines) is `ReplaceMatch`. |
| UpdateMd5.ReplaceMatch | civ5-mod/update_md5.py:20-32 | The replacement has the length of the matched entry. |
| UpdateMd5.MissingFileKeepsEntry | civ5-mod/update_md5.py:24-26 | A missing file gives back the entry exactly as matched, uncounted, with the single line `  MISSING: <path>`. |
| UpdateMd5.ExistingFileEntry | civ5-mod/update_md5.py:27-32 | An existing file gives group 1 + digest + group 3 + path + group 5. It is counted, with the line `  <path>: <OLD upper> -> <NEW>`, exactly when the upper-cased recorded hash differs from the digest. |
| UpdateMd5.CaseOnlyDifference | civ5-mod/update_md5.py:28-32 | A hash equal to the digest apart from letter case is neither counted nor logged. The entry text stays the same exactly when the recorded hash already was the upper-case digest. |
| UpdateMd5.ReplaceMatchRewritesOnlyHash | civ5-mod/update_md5.py:32 | Every character of the entry except the 32 hash characters is kept. The hash characters become the hash the entry carries after the pass. |
| UpdateMd5.SpliceRewritesOnlyHash | civ5-mod/update_md5.py:32 | Rebuilding an entry around a hash keeps everything outside the hash field and puts the hash inside it. |
| UpdateMd5.SpliceGroups | civ5-mod/update_md5.py:32 | The rebuilt entry is group 1 + hash + group 3 + group 4 + group 5. |
| UpdateMd5.SpliceOwnHash | civ5-mod/update_md5.py:26 | Rebuilding an entry around its own hash gives the matched text back. |
| UpdateMd5.SpliceKeepsIff | civ5-mod/update_md5.py:32 | A rebuilt entry equals the original exactly when the new hash is the recorded one. |
| UpdateMd5.SplicedFields | civ5-mod/update_md5.py:32 | Read back from the output, a rebuilt entry names the same file and records the new hash. |
| UpdateMd5.Matches | civ5-mod/update_md5.py:34 | The visited matches, as `finditer` yields them, are no more than the remaining characters; the first starts at or after the scan position and the last ends inside the text. |
| UpdateMd5.Substitute | civ5-mod/update_md5.py:34 | The pass keeps the length of the text. |
| UpdateMd5.ScanStep | civ5-mod/update_md5.py:34 | One step of the scan either replaces the match at `i` and resumes at its end, or copies one character. The step followed by the rest of the pass is the pass. |
| UpdateMd5.SubstituteHashes | civ5-mod/update_md5.py:34 | The loop's new text, final count and printed lines are those of the pass `Substitute`. |
| UpdateMd5.MatchesScanned | civ5-mod/update_md5.py:34 | The visited matches are what a left-to-right scan can visit. |
| UpdateMd5.ScannedEntry | civ5-mod/update_md5.py:34 | Each visited entry is the engine's match at its start and starts after the end of the one before. |
| UpdateMd5.MatchesAreEngineMatches | civ5-mod/update_md5.py:34 | Each visited match is the engine's match at its own start. |
| UpdateMd5.MatchesInOrder | civ5-mod/update_md5.py:34 | The visited matches come left to right without overlapping. |
| UpdateMd5.MatchCovered | civ5-mod/update_md5.py:34 | A position where the pattern could match lies inside some visited match. |
| UpdateMd5.MatchesCoverEveryMatch | civ5-mod/update_md5.py:34 | The scan skips no match: every position where the pattern could match lies inside a visited match. |
| UpdateMd5.Summary | civ5-mod/update_md5.py:36-40 | "All hashes up to date." is printed exactly when nothing was counted. |
| UpdateMd5.SummaryReportsCount | civ5-mod/update_md5.py:38 | "Updated N hash(es)." carries the count: only digits stand between the fixed prefix and suffix, and they read back as N. |
| UpdateMd5.Synchronize | civ5-mod/update_md5.py:34-40 | The manifest is written, with the pass's text, exactly when the count is above zero. The output is the pass's lines followed by "Updated N hash(es)." or "All hashes up to date.". |
| UpdateMd5Properties.StaleCount | civ5-mod/update_md5.py:29-31 | The number of entries counted is at most the number of entries, and is zero exactly when none is stale. |
| UpdateMd5Properties.SubstituteFollowsMatches | civ5-mod/update_md5.py:28-34 | `updated` counts exactly the visited entries whose file exists with a different hash, so it never exceeds the number of entries. The printed lines are the entries' lines, in order. |
| UpdateMd5Properties.WrittenIffSomeStale | civ5-mod/update_md5.py:29-37 | The count is above zero, and the manifest written, exactly when some visited entry is stale. |
| UpdateMd5Properties.StaleMeansDigitsDiffer | civ5-mod/update_md5.py:28-29 | For a matched entry, being counted is a case-insensitive comparison: the file exists and its digest's digits differ from the recorded ones. |
| UpdateMd5Properties.SubstituteCopiesOutside | civ5-mod/update_md5.py:34 | Every character that no visited match spans is copied to the output unchanged. |
| UpdateMd5Properties.SubstituteSplicesMatches | civ5-mod/update_md5.py:32-34 | Each visited match is replaced, in its own span of the output, by what `replace_match` returns for it. |
| UpdateMd5Properties.PassRecordsDigests | civ5-mod/update_md5.py:27-34 | After the pass every visited entry names the same file. It records the file's digest when the file exists, and its old hash otherwise. |
| UpdateMd5Properties.ChangedCharInVisitedHash | civ5-mod/update_md5.py:32-34 | A character the pass changes lies in the 32-digit hash field of the visited entry that spans it, is an editable hash digit, and becomes a hex digit. |
| UpdateMd5Properties.PassIsHexEdit | civ5-mod/update_md5.py:32-34 | The output has the input's length. A character differs only inside the 32-digit `md5="..."` field of a visited entry, only where it is a hex digit that cannot extend past the field's quotes, and only into another hex digit. |
| UpdateMd5Properties.MatchesStable | civ5-mod/update_md5.py:34 | After such an edit the scan visits the same entries. |
| UpdateMd5Properties.ReplaceMatchIdempotent | civ5-mod/update_md5.py:20-32 | `replace_match` on its own output returns that output and counts nothing. |
| UpdateMd5Properties.RerunFrom | civ5-mod/update_md5.py:34 | Re-running the pass from any position over its own output gives that output back and counts nothing. |
| UpdateMd5Properties.SecondPassChangesNothing | civ5-mod/update_md5.py:9-34 | Fixpoint: with the files unchanged, a second run visits the same entries, counts 0, so nothing is written, and returns the same text. |
| UpdateMd5Properties.NoEntriesNoChange | civ5-mod/update_md5.py:34 | A text with no entry passes through unchanged, with nothing counted or printed. |

## Left out

- `md5_of` (hashlib's MD5 over the file's bytes) is not computed. It is the `Disk` oracle, which only promises 32 upper-case hex characters.
- Reading the manifest as UTF-8 and writing it back are not performed. The input is a string, and the write is `Synchronize`'s `written` result. `read_text` and `write_text` use universal-newline text mode: `\r\n` and a lone `\r` become `\n` on reading, and `\n` becomes `os.linesep` on writing. So "copied unchanged" holds for the decoded string, not for the file's bytes; a CRLF manifest written back on POSIX loses its carriage returns.
- `MODINFO.parent / rel_path` and `Path.exists()` are not modelled. The oracle is keyed by the path string exactly as written, so two spellings of one file are independent keys.
- Exceptions are not modelled: a listed path that is a directory or unreadable, or a manifest that is not valid UTF-8. These errors only propagate in the script.
- `print` is modelled as the sequence of lines returned, in order.
- The module-level `MODINFO` constant and the `__main__` entry point are not modelled.
- Chars.Upper: upper-cases ASCII letters only. It is applied only to group 2, which the pattern restricts to hex digits, so this never matters.
- Python's regex engine is not modelled as an engine. `MatchAt` is a hand-written matcher, and `Pattern.MatchAtIsShortestEntry` proves it returns the leftmost-shortest match of the pattern at each position. That is the match a backtracking engine returns here, because groups 1 to 3 admit only one split and only the lazy path varies.
