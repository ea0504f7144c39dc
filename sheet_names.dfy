/**
 * Worksheet titles as the catalog sees them: which titles are default placeholders that the
 * catalog skips, how a title becomes a directory-safe category name, and how clashing names
 * are told apart with `_2`, `_3`, ... suffixes in worksheet order.
 */
module SheetNames {
  import opened Wrappers
  import opened Text

  /** One character of `[A-Za-z0-9._-]`, the alphabet of category directory names. */
  predicate IsDirChar(c: char) {
    ('A' <= c <= 'Z') || ('a' <= c <= 'z') || ('0' <= c <= '9') || c == '.' || c == '_' || c == '-'
  }

  /** A full match of `SAFE_CATEGORY_PATTERN`, `^[A-Za-z0-9._-]+$`. */
  predicate IsSafeCategory(s: string) {
    |s| > 0 && forall i :: 0 <= i < |s| ==> IsDirChar(s[i])
  }

  /**
   * A safe name that also names a directory inside the cache root. The names `.` and `..`
   * match the safe-category pattern, but a path joined onto the cache root with them is the
   * cache root itself or its parent.
   */
  predicate IsCacheCategory(s: string) {
    IsSafeCategory(s) && !IsDotName(s)
  }

  /** `.` or `..`. */
  predicate IsDotName(s: string) {
    0 < |s| <= 2 && s[0] == '.' && s[|s| - 1] == '.'
  }

  /** Name used when a title has no characters left after stripping. */
  const Untitled: string := "UNTITLED"

  // ---------------------------------------------------------------------------
  // Default sheet titles.

  /**
   * The letter `s` under Python's case-insensitive matching, which also accepts U+017F
   * (LATIN SMALL LETTER LONG S).
   */
  predicate IsLetterS(c: char) {
    c == 'S' || c == 's' || c == '\U{17F}'
  }

  /** `DEFAULT_SHEET_PATTERN.match(title.strip())`: `^Sheet\d*$`, ignoring case. */
  predicate ShouldIgnoreSheet(title: string) {
    var s := Strip(title);
    && |s| >= 5
    && IsLetterS(s[0])
    && (s[1] == 'h' || s[1] == 'H')
    && (s[2] == 'e' || s[2] == 'E')
    && (s[3] == 'e' || s[3] == 'E')
    && (s[4] == 't' || s[4] == 'T')
    && AllDigits(s[5..])
  }

  /** `Sheet` followed by digits, in any letter case the pattern accepts, is a default title. */
  lemma SheetDigitsIgnored(word: string, digits: string)
    requires |word| == 5 && IsLetterS(word[0]) && (word[1] == 'h' || word[1] == 'H')
    requires (word[2] == 'e' || word[2] == 'E') && (word[3] == 'e' || word[3] == 'E')
    requires word[4] == 't' || word[4] == 'T'
    requires AllDigits(digits)
    ensures ShouldIgnoreSheet(word + digits)
  {
    var s := word + digits;
    assert s[..5] == word;
    assert s[5..] == digits;
    assert !IsSpace(s[0]);
    assert !IsSpace(s[|s| - 1]) by {
      if digits == [] {
        assert s[|s| - 1] == word[4];
      } else {
        assert s[|s| - 1] == digits[|digits| - 1];
      }
    }
    StripOfTrimmed(s);
  }

  /** The titles a new workbook gets (`Sheet`, `Sheet1`, `SHEET12`, ...) are ignored. */
  lemma DefaultTitlesIgnored(k: nat)
    ensures ShouldIgnoreSheet("Sheet")
    ensures ShouldIgnoreSheet("Sheet" + FormatNat(k, 10))
    ensures ShouldIgnoreSheet("SHEET" + FormatNat(k, 10))
  {
    FormatDecimalIsDigits(k);
    SheetDigitsIgnored("Sheet", []);
    assert "Sheet" + [] == "Sheet";
    SheetDigitsIgnored("Sheet", FormatNat(k, 10));
    SheetDigitsIgnored("SHEET", FormatNat(k, 10));
  }

  /** Whether a title is ignored depends only on its stripped form. */
  lemma IgnoreDependsOnStrippedTitle(title: string)
    ensures ShouldIgnoreSheet(title) == ShouldIgnoreSheet(Strip(title))
  {
    StripIdempotent(title);
  }

  /** A title whose stripped form has a character other than a digit after its fifth is kept. */
  lemma NonDigitTailKept(title: string, i: nat)
    requires 5 <= i < |Strip(title)| && !IsDigit(Strip(title)[i])
    ensures !ShouldIgnoreSheet(title)
  {
    var s := Strip(title);
    assert s[5..][i - 5] == s[i];
  }

  // ---------------------------------------------------------------------------
  // Directory-safe names.

  /** What is left of `s` after its leading run of characters outside the alphabet. */
  function DropInvalidRun(s: string): (r: string)
    ensures |r| <= |s| && r == s[|s| - |r|..]
    ensures r == [] || IsDirChar(r[0])
    ensures forall i :: 0 <= i < |s| - |r| ==> !IsDirChar(s[i])
  {
    if |s| > 0 && !IsDirChar(s[0]) then
      var r := DropInvalidRun(s[1..]);
      assert forall i :: 1 <= i < |s| - |r| ==> s[i] == s[1..][i - 1];
      r
    else s
  }

  /** `INVALID_DIR_CHARS.sub("_", s)`: every maximal run of characters outside the alphabet becomes one `_`. */
  function ReplaceInvalidRuns(s: string): (r: string)
    ensures forall i :: 0 <= i < |r| ==> IsDirChar(r[i])
    ensures |r| <= |s|
    ensures r == [] <==> s == []
    decreases |s|
  {
    if s == [] then []
    else if IsDirChar(s[0]) then [s[0]] + ReplaceInvalidRuns(s[1..])
    else "_" + ReplaceInvalidRuns(DropInvalidRun(s[1..]))
  }

  /**
   * `_safe_sheet_dir_name` as written: the stripped title with invalid runs replaced, or
   * `UNTITLED` when that is empty. The titles `.` and `..` come out unchanged.
   */
  function SafeSheetDirNameAsWritten(title: string): (r: string)
    ensures IsSafeCategory(r)
    ensures Strip(title) == [] ==> r == Untitled
    ensures Strip(title) != [] ==> |r| <= |Strip(title)|
  {
    var normalized := ReplaceInvalidRuns(Strip(title));
    if normalized == [] then Untitled else normalized
  }

  /**
   * The directory name the catalog uses for a worksheet: the name above, except that `.` and
   * `..`, which would name the cache root and its parent, become `UNTITLED` like a blank title.
   */
  function SafeSheetDirName(title: string): (r: string)
    ensures IsCacheCategory(r)
    ensures Strip(title) == [] ==> r == Untitled
    ensures r == SafeSheetDirNameAsWritten(title) || r == Untitled
    ensures r != SafeSheetDirNameAsWritten(title) ==> IsDotName(SafeSheetDirNameAsWritten(title))
  {
    var n := SafeSheetDirNameAsWritten(title);
    if IsDotName(n) then
      assert IsSafeCategory(Untitled) by {
        assert forall i :: 0 <= i < |Untitled| ==> 'A' <= Untitled[i] <= 'Z';
      }
      Untitled
    else n
  }

  /** Characters of the alphabet are copied through unchanged. */
  lemma {:induction false} ReplaceKeepsSafePrefix(p: string, t: string)
    requires forall i :: 0 <= i < |p| ==> IsDirChar(p[i])
    ensures ReplaceInvalidRuns(p + t) == p + ReplaceInvalidRuns(t)
    decreases |p|
  {
    if p != [] {
      var s := p + t;
      assert s[0] == p[0] && IsDirChar(p[0]);
      assert s[1..] == p[1..] + t;
      assert ReplaceInvalidRuns(s) == [p[0]] + ReplaceInvalidRuns(p[1..] + t);
      forall i | 0 <= i < |p[1..]|
        ensures IsDirChar(p[1..][i])
      {
        assert p[1..][i] == p[i + 1];
      }
      ReplaceKeepsSafePrefix(p[1..], t);
      assert [p[0]] + (p[1..] + ReplaceInvalidRuns(t)) == p + ReplaceInvalidRuns(t);
    } else {
      assert p + t == t;
    }
  }

  /** A non-empty run of characters outside the alphabet, up to the next allowed character, becomes one `_`. */
  lemma {:induction false} CollapseInvalidRun(u: string, t: string)
    requires |u| > 0 && forall i :: 0 <= i < |u| ==> !IsDirChar(u[i])
    requires t == [] || IsDirChar(t[0])
    ensures ReplaceInvalidRuns(u + t) == "_" + ReplaceInvalidRuns(t)
  {
    var s := u + t;
    assert s != [] && s[0] == u[0] && !IsDirChar(s[0]);
    assert s[1..] == u[1..] + t;
    assert forall i :: 0 <= i < |u[1..]| ==> !IsDirChar(u[1..][i]) by {
      assert forall i :: 0 <= i < |u[1..]| ==> u[1..][i] == u[i + 1];
    }
    calc {
      ReplaceInvalidRuns(s);
      "_" + ReplaceInvalidRuns(DropInvalidRun(u[1..] + t));
      { DropWholeInvalidRun(u[1..], t); }
      "_" + ReplaceInvalidRuns(t);
    }
  }

  lemma {:induction false} DropWholeInvalidRun(u: string, t: string)
    requires forall i :: 0 <= i < |u| ==> !IsDirChar(u[i])
    requires t == [] || IsDirChar(t[0])
    ensures DropInvalidRun(u + t) == t
    decreases |u|
  {
    if u != [] {
      assert (u + t)[1..] == u[1..] + t;
      DropWholeInvalidRun(u[1..], t);
    } else {
      assert u + t == t;
    }
  }

  /** A name that is already safe is its own name as written, and its own directory name unless it is `.` or `..`. */
  lemma SafeNameUnchanged(s: string)
    requires IsSafeCategory(s)
    ensures SafeSheetDirNameAsWritten(s) == s
    ensures IsCacheCategory(s) ==> SafeSheetDirName(s) == s
  {
    // no character of the alphabet is whitespace
    StripOfTrimmed(s);
    ReplaceKeepsSafePrefix(s, []);
    assert s + [] == s;
  }

  /** Deriving the directory name twice changes nothing. */
  lemma SafeSheetDirNameIdempotent(title: string)
    ensures SafeSheetDirName(SafeSheetDirName(title)) == SafeSheetDirName(title)
  {
    SafeNameUnchanged(SafeSheetDirName(title));
  }

  /**
   * As written, a worksheet titled `.` or `..` is not a default title and keeps its title as
   * its directory name, which is safe by the pattern but is not a child of the cache root.
   */
  lemma DotTitlesKeptAsWritten(title: string)
    requires title == "." || title == ".."
    ensures !ShouldIgnoreSheet(title)
    ensures SafeSheetDirNameAsWritten(title) == title
    ensures IsSafeCategory(title) && !IsCacheCategory(title)
    ensures SafeSheetDirName(title) == Untitled
  {
    assert IsSafeCategory(title);
    SafeNameUnchanged(title);
  }

  // ---------------------------------------------------------------------------
  // Collision-free names.

  /** `f"{base}_{k}"`. */
  function Candidate(base: string, k: nat): (r: string)
    ensures IsSafeCategory(base) ==> IsSafeCategory(r)
    ensures IsCacheCategory(base) ==> IsCacheCategory(r)
  {
    base + "_" + FormatNat(k, 10)
  }

  /** `x` is `base_<digits>` with a number of at least `k`. */
  ghost predicate IsCandidateFrom(base: string, x: string, k: nat) {
    && |x| > |base| + 1
    && x[..|base| + 1] == base + "_"
    && ParseNat(x[|base| + 1..], 10) >= k
  }

  /** The names in `used` that a search for a free suffix starting at `k` may still run into. */
  ghost function PendingCandidates(base: string, used: set<string>, k: nat): set<string> {
    set x | x in used && IsCandidateFrom(base, x, k)
  }

  /** Each occupied candidate that is skipped shrinks the set of pending candidates. */
  lemma CandidateSkipShrinks(base: string, used: set<string>, k: nat)
    requires Candidate(base, k) in used
    ensures PendingCandidates(base, used, k + 1) < PendingCandidates(base, used, k)
  {
    var c := Candidate(base, k);
    assert c[..|base| + 1] == base + "_";
    assert c[|base| + 1..] == FormatNat(k, 10);
    ParseFormat(k, 10);
    assert c in PendingCandidates(base, used, k);
    assert c !in PendingCandidates(base, used, k + 1);
  }

  /** The smallest suffix `r >= k` whose candidate is free. */
  function FirstFreeSuffix(base: string, used: set<string>, k: nat): (r: nat)
    ensures r >= k && Candidate(base, r) !in used
    ensures forall j :: k <= j < r ==> Candidate(base, j) in used
    decreases PendingCandidates(base, used, k)
  {
    if Candidate(base, k) !in used then k
    else
      CandidateSkipShrinks(base, used, k);
      FirstFreeSuffix(base, used, k + 1)
  }

  /**
   * The name `_resolve_unique_dir_name` picks: `base` itself if unused, otherwise `base_k`
   * for the smallest `k >= 2` that is unused.
   */
  function UniqueDirName(base: string, used: set<string>): (name: string)
    ensures name !in used
    ensures base !in used ==> name == base
    ensures base in used ==>
      exists k :: k >= 2 && name == Candidate(base, k) && forall j :: 2 <= j < k ==> Candidate(base, j) in used
    ensures IsSafeCategory(base) ==> IsSafeCategory(name)
    ensures IsCacheCategory(base) ==> IsCacheCategory(name)
  {
    if base !in used then base else Candidate(base, FirstFreeSuffix(base, used, 2))
  }

  /**
   * `_resolve_unique_dir_name(base, used_names)`: returns the name and the set after the
   * name has been added to it.
   */
  method ResolveUniqueDirName(base: string, used: set<string>) returns (name: string, usedAfter: set<string>)
    ensures name == UniqueDirName(base, used)
    ensures name !in used
    ensures usedAfter == used + {name}
  {
    if base !in used {
      return base, used + {base};
    }
    var suffix := 2;
    while true
      invariant suffix >= 2
      invariant forall j :: 2 <= j < suffix ==> Candidate(base, j) in used
      decreases PendingCandidates(base, used, suffix)
    {
      var candidate := base + "_" + FormatNat(suffix, 10);
      if candidate !in used {
        assert candidate == Candidate(base, suffix);
        var r := FirstFreeSuffix(base, used, 2);
        assert Candidate(base, r) !in used;
        assert r <= suffix;  // a larger r would have found the free candidate occupied
        assert r >= suffix;  // every smaller suffix is occupied
        return candidate, used + {candidate};
      }
      CandidateSkipShrinks(base, used, suffix);
      suffix := suffix + 1;
    }
  }

  /**
   * The directory name each worksheet gets in one pass over the titles, starting from the
   * names already in `used`: `None` for an ignored title.
   */
  function AssignedDirs(titles: seq<string>, used: set<string>): (dirs: seq<Option<string>>)
    ensures |dirs| == |titles|
    ensures forall i :: 0 <= i < |titles| ==> (dirs[i].None? <==> ShouldIgnoreSheet(titles[i]))
    decreases |titles|
  {
    if titles == [] then []
    else if ShouldIgnoreSheet(titles[0]) then [None] + AssignedDirs(titles[1..], used)
    else
      var name := UniqueDirName(SafeSheetDirName(titles[0]), used);
      [Some(name)] + AssignedDirs(titles[1..], used + {name})
  }

  /** Every name in `dirs` is directory-safe and not one of `used`. */
  predicate SafeAndNew(dirs: seq<Option<string>>, used: set<string>) {
    forall i :: 0 <= i < |dirs| && dirs[i].Some? ==> IsCacheCategory(dirs[i].value) && dirs[i].value !in used
  }

  /** No two positions of `dirs` hold the same name. */
  predicate DistinctDirs(dirs: seq<Option<string>>) {
    forall i, j :: 0 <= i < j < |dirs| && dirs[i].Some? && dirs[j].Some? ==> dirs[i].value != dirs[j].value
  }

  /** The names handed out in one pass are safe, new, and pairwise distinct: no two worksheets share a directory. */
  lemma {:induction false} AssignedDirsDistinct(titles: seq<string>, used: set<string>)
    ensures SafeAndNew(AssignedDirs(titles, used), used)
    ensures DistinctDirs(AssignedDirs(titles, used))
    decreases |titles|
  {
    if titles != [] {
      var dirs := AssignedDirs(titles, used);
      if ShouldIgnoreSheet(titles[0]) {
        AssignedDirsDistinct(titles[1..], used);
        ConsDistinct(None, AssignedDirs(titles[1..], used), used);
      } else {
        var name := UniqueDirName(SafeSheetDirName(titles[0]), used);
        AssignedDirsDistinct(titles[1..], used + {name});
        ConsDistinct(Some(name), AssignedDirs(titles[1..], used + {name}), used);
      }
    }
  }

  /** Putting a safe, new name (or none) in front of names that avoid it keeps them safe, new and distinct. */
  lemma ConsDistinct(d: Option<string>, rest: seq<Option<string>>, used: set<string>)
    requires d.Some? ==> IsCacheCategory(d.value) && d.value !in used
    requires SafeAndNew(rest, if d.Some? then used + {d.value} else used)
    requires DistinctDirs(rest)
    ensures SafeAndNew([d] + rest, used)
    ensures DistinctDirs([d] + rest)
  {
    var dirs := [d] + rest;
    assert forall i :: 1 <= i < |dirs| ==> dirs[i] == rest[i - 1];
  }

  /** The first position at which `dirs` holds `Some(category)`. */
  function FirstIndexOf(dirs: seq<Option<string>>, category: string): (r: Option<nat>)
    ensures r.None? <==> Some(category) !in dirs
    ensures r.Some? ==> r.value < |dirs| && dirs[r.value] == Some(category)
    ensures r.Some? ==> forall j :: 0 <= j < r.value ==> dirs[j] != Some(category)
    decreases |dirs|
  {
    if dirs == [] then None
    else if dirs[0] == Some(category) then Some(0)
    else
      var r := FirstIndexOf(dirs[1..], category);
      assert forall j :: 1 <= j < |dirs| ==> dirs[j] == dirs[1..][j - 1];
      if r.None? then None else Some(r.value + 1)
  }

  lemma FirstIndexAt(dirs: seq<Option<string>>, category: string, i: nat)
    requires i < |dirs| && dirs[i] == Some(category) && Some(category) !in dirs[..i]
    ensures FirstIndexOf(dirs, category) == Some(i)
  {
  }

  /** Directory names are handed out once, so the worksheet holding a name is the only one holding it. */
  lemma SheetForDirIsUnique(titles: seq<string>, category: string, k: nat)
    requires k < |titles| && AssignedDirs(titles, {})[k] == Some(category)
    ensures FirstIndexOf(AssignedDirs(titles, {}), category) == Some(k)
  {
    AssignedDirsDistinct(titles, {});
    var dirs := AssignedDirs(titles, {});
    assert Some(category) in dirs;
    var r := FirstIndexOf(dirs, category).value;
    assert dirs[r].value == dirs[k].value;
  }

  /** The name position `i` of the titles gets in the naming pass, given the names used before it. */
  function NameAt(titles: seq<string>, i: nat, used: set<string>): Option<string>
    requires i < |titles|
  {
    if ShouldIgnoreSheet(titles[i]) then None else Some(UniqueDirName(SafeSheetDirName(titles[i]), used))
  }

  /** One step of the naming pass: the names so far, then the name at position `i`, then the rest. */
  lemma NamingPassStep(titles: seq<string>, i: nat, used: set<string>, seen: seq<Option<string>>)
    requires i < |titles| && |seen| == i
    requires AssignedDirs(titles, {}) == seen + AssignedDirs(titles[i..], used)
    ensures var d := NameAt(titles, i, used);
      && AssignedDirs(titles, {}) == (seen + [d]) + AssignedDirs(titles[i + 1..], if d.Some? then used + {d.value} else used)
      && AssignedDirs(titles, {})[i] == d
      && AssignedDirs(titles, {})[..i] == seen
  {
    var d := NameAt(titles, i, used);
    var tail := AssignedDirs(titles[i + 1..], if d.Some? then used + {d.value} else used);
    assert titles[i..][0] == titles[i] && titles[i..][1..] == titles[i + 1..];
    AssignedDirsHead(titles[i..], used);
    SplitAround(AssignedDirs(titles, {}), seen, d, tail);
  }

  /** The naming pass names the first title, then the rest with that name taken. */
  lemma AssignedDirsHead(titles: seq<string>, used: set<string>)
    requires |titles| > 0
    ensures var d := NameAt(titles, 0, used);
      AssignedDirs(titles, used) == [d] + AssignedDirs(titles[1..], if d.Some? then used + {d.value} else used)
  {
  }

  /** A sequence split around one element. */
  lemma SplitAround<T>(all: seq<T>, front: seq<T>, x: T, back: seq<T>)
    requires all == front + ([x] + back)
    ensures all == (front + [x]) + back && all[|front|] == x && all[..|front|] == front
  {
  }

  /**
   * `_resolve_sheet_by_category`: repeats the catalog's naming pass over the titles and
   * returns the position of the first worksheet whose directory name is `category`.
   */
  method ResolveSheetByCategory(titles: seq<string>, category: string) returns (found: Option<nat>)
    ensures found == FirstIndexOf(AssignedDirs(titles, {}), category)
    ensures found.None? <==> Some(category) !in AssignedDirs(titles, {})
    ensures found.Some? ==> found.value < |titles| && AssignedDirs(titles, {})[found.value] == Some(category)
  {
    var used: set<string> := {};
    var i := 0;
    ghost var seen: seq<Option<string>> := [];
    while i < |titles|
      invariant 0 <= i <= |titles| && |seen| == i
      invariant AssignedDirs(titles, {}) == seen + AssignedDirs(titles[i..], used)
      invariant Some(category) !in seen
    {
      NamingPassStep(titles, i, used, seen);
      if ShouldIgnoreSheet(titles[i]) {
        seen := seen + [None];
        i := i + 1;
        continue;
      }
      var name, usedAfter := ResolveUniqueDirName(SafeSheetDirName(titles[i]), used);
      if name == category {
        FirstIndexAt(AssignedDirs(titles, {}), category, i);
        return Some(i);
      }
      seen := seen + [Some(name)];
      used := usedAfter;
      i := i + 1;
    }
    assert AssignedDirs(titles, {}) == seen + [];
    return None;
  }

  /** Two worksheets that sanitize to the same name still get distinct directories, the later one suffixed. */
  lemma CollidingTitlesGetSuffix(a: string, b: string)
    requires !ShouldIgnoreSheet(a) && !ShouldIgnoreSheet(b)
    requires SafeSheetDirName(a) == SafeSheetDirName(b)
    ensures AssignedDirs([a, b], {}) == [Some(SafeSheetDirName(a)), Some(SafeSheetDirName(a) + "_2")]
  {
    var base := SafeSheetDirName(a);
    SecondUseGetsSuffix(base);
    assert [a, b][1..] == [b] && [b][1..] == [];
    AssignedDirsHead([b], {base});
    AssignedDirsHead([a, b], {});
  }

  /** A name asked for a second time comes back with `_2`. */
  lemma SecondUseGetsSuffix(base: string)
    ensures UniqueDirName(base, {base}) == base + "_2"
  {
    assert FormatNat(2, 10) == "2";
    assert Candidate(base, 2) != base;
    assert FirstFreeSuffix(base, {base}, 2) == 2;
  }
}
