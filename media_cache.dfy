/**
 * The on-disk media cache as a value. The cache root holds one directory per category and the
 * `.workbook_identity` marker file. A category directory holds `img_<N>.png` images, each with
 * an `img_<N>.meta` file that records the identity of the workbook the image was extracted from.
 * This module defines which names the cache owns, what invalidation leaves behind, when a
 * request is a cache hit, what a write-through stores, and the ETag of a cached image.
 */
module MediaCache {
  import opened Wrappers
  import opened Text
  import opened SheetNames
  import opened Identity

  /** File contents: bytes for images, text for the identity files. */
  datatype FileContent = Bytes(data: seq<bv8>) | TextContent(text: string)

  datatype CacheFile = CacheFile(content: FileContent, mtimeNs: int)

  /** An entry of a category directory: a file, or a sub-directory the cache never looks into. */
  datatype DirEntry = FileEntry(file: CacheFile) | SubDirEntry

  /** An entry of the cache root: a category directory or a plain file. */
  datatype RootEntry = CategoryDir(entries: map<string, DirEntry>) | RootFile(file: CacheFile)

  type CacheRoot = map<string, RootEntry>

  const IdentityMarker := ".workbook_identity"

  /** The number of bytes UTF-8 encodes one character in. */
  function Utf8Width(c: char): (n: nat)
    ensures 1 <= n <= 4
    ensures n == 1 <==> (c as int) < 0x80
  {
    if (c as int) < 0x80 then 1
    else if (c as int) < 0x800 then 2
    else if (c as int) < 0x1_0000 then 3
    else 4
  }

  /** The length of `t` encoded as UTF-8, the encoding `write_text` uses. */
  function Utf8Size(t: string): (n: nat)
    ensures |t| <= n <= 4 * |t|
    ensures n == |t| <==> forall i :: 0 <= i < |t| ==> (t[i] as int) < 0x80
    decreases |t|
  {
    if t == [] then 0
    else
      assert forall i :: 1 <= i < |t| ==> t[i] == t[1..][i - 1];
      Utf8Width(t[0]) + Utf8Size(t[1..])
  }

  /** Text written in two parts takes as many bytes as the parts together. */
  lemma {:induction false} Utf8SizeAppend(a: string, b: string)
    ensures Utf8Size(a + b) == Utf8Size(a) + Utf8Size(b)
    decreases |a|
  {
    if a == [] {
      assert a + b == b;
    } else {
      assert (a + b)[0] == a[0] && (a + b)[1..] == a[1..] + b;
      Utf8SizeAppend(a[1..], b);
    }
  }

  /** `stat()` of a cache file: its mtime and its size in bytes, text counted as UTF-8. */
  function Stat(f: CacheFile): FileStat {
    FileStat(f.mtimeNs, match f.content case Bytes(b) => |b| case TextContent(t) => Utf8Size(t))
  }

  // ---------------------------------------------------------------------------
  // File names.

  /** A non-empty run of ASCII digits. */
  predicate IsNumber(s: string) {
    s != [] && AllDigits(s)
  }

  /** `img_<digits>.png`. */
  predicate IsImageFileName(n: string) {
    |n| >= 9 && "img_" <= n && EndsWith(n, ".png") && IsNumber(n[4..|n| - 4])
  }

  /** `img_<digits>.meta`. */
  predicate IsMetaFileName(n: string) {
    |n| >= 10 && "img_" <= n && EndsWith(n, ".meta") && IsNumber(n[4..|n| - 5])
  }

  /** The names `MEDIA_CACHE_FILE_PATTERN` accepts: the files invalidation deletes. */
  predicate IsMediaCacheFileName(n: string) {
    IsImageFileName(n) || IsMetaFileName(n)
  }

  /** `_parse_filename_index`: the number in `img_<digits>.png`, or nothing for any other name. */
  function ParseFilenameIndex(filename: string): (r: Option<nat>)
    ensures r.Some? <==> IsImageFileName(filename)
  {
    if IsImageFileName(filename) then Some(ParseNat(filename[4..|filename| - 4], 10)) else None
  }

  /** The file name of the `k`-th image of a category, as the catalog writes it. */
  function ImageFileName(k: nat): string {
    "img_" + FormatNat(k, 10) + ".png"
  }

  /** The name the catalog writes for image `k` is read back as index `k`. */
  lemma ParseImageFileName(k: nat)
    ensures ParseFilenameIndex(ImageFileName(k)) == Some(k)
  {
    var n := ImageFileName(k);
    var digits := FormatNat(k, 10);
    FormatDecimalIsDigits(k);
    assert n[4..|n| - 4] == digits;
    assert EndsWith(n, ".png") by { assert n[|n| - 4..] == ".png"; }
    ParseFormat(k, 10);
  }

  /** `cache_path.with_suffix(".meta")` for an image name. */
  function MetaName(filename: string): (m: string)
    requires IsImageFileName(filename)
    ensures IsMetaFileName(m)
  {
    var m := filename[..|filename| - 4] + ".meta";
    assert m[4..|m| - 5] == filename[4..|filename| - 4];
    assert EndsWith(m, ".meta") by { assert m[|m| - 5..] == ".meta"; }
    m
  }

  /** Distinct images have distinct `.meta` files, and no `.meta` file is an image. */
  lemma MetaNameInjective(f1: string, f2: string)
    requires IsImageFileName(f1) && IsImageFileName(f2) && MetaName(f1) == MetaName(f2)
    ensures f1 == f2
  {
    var m := MetaName(f1);
    assert f1[..|f1| - 4] == m[..|m| - 5] == f2[..|f2| - 4];
    assert f1 == f1[..|f1| - 4] + ".png";
    assert f2 == f2[..|f2| - 4] + ".png";
  }

  lemma MetaNameIsNotImage(f: string)
    requires IsImageFileName(f)
    ensures MetaName(f) != f && !IsImageFileName(MetaName(f))
  {
    var m := MetaName(f);
    assert m[|m| - 1] == 'a' && f[|f| - 1] == 'g';
    assert m[|m| - 4..] != ".png" by { assert m[|m| - 4..][3] == 'a'; }
  }

  // ---------------------------------------------------------------------------
  // Reading the cache.

  /** The file `name` in category directory `dir`, when both exist. */
  function FileAt(root: CacheRoot, dir: string, name: string): Option<CacheFile> {
    if dir in root && root[dir].CategoryDir? && name in root[dir].entries && root[dir].entries[name].FileEntry?
    then Some(root[dir].entries[name].file)
    else None
  }

  /** `read_text().strip() or None`. The service only writes text here; a file holding bytes reads as nothing. */
  function StrippedText(f: CacheFile): Option<string> {
    match f.content
    case TextContent(t) => if Strip(t) == "" then None else Some(Strip(t))
    case Bytes(_) => None
  }

  /** `_read_cached_identity`. */
  function CachedIdentity(root: CacheRoot, dir: string, metaName: string): (r: Option<string>)
    ensures r.Some? ==> r.value != ""
  {
    match FileAt(root, dir, metaName)
    case None => None
    case Some(f) => StrippedText(f)
  }

  /** A request is served from the cache when the image exists and its `.meta` names the current workbook. */
  predicate IsCacheHit(root: CacheRoot, category: string, filename: string, current: string)
    requires IsImageFileName(filename)
  {
    FileAt(root, category, filename).Some? && CachedIdentity(root, category, MetaName(filename)) == Some(current)
  }

  // ---------------------------------------------------------------------------
  // Writing through.

  /** Why a write into the cache failed. */
  datatype WriteFailure = NotADirectory(dir: string) | IsADirectory(dir: string, name: string) | MarkerIsADirectory

  /** A cache after a sequence of writes, and the write that failed, if one did. */
  datatype WriteOutcome = WriteOutcome(root: CacheRoot, failure: Option<WriteFailure>)

  /** `(cache_root / dir).mkdir(parents=True, exist_ok=True)`: fails when a plain file has the name. */
  function MakeDir(root: CacheRoot, dir: string): (r: Result<CacheRoot, WriteFailure>)
    ensures r.Ok? <==> dir !in root || root[dir].CategoryDir?
    ensures r.Ok? ==> dir in r.value && r.value[dir].CategoryDir? && r.value.Keys == root.Keys + {dir}
    ensures r.Ok? ==> forall n :: n in root ==> r.value[n] == root[n]
  {
    if dir !in root then Ok(root[dir := CategoryDir(map[])])
    else if root[dir].RootFile? then Err(NotADirectory(dir))
    else Ok(root)
  }

  /** `write_bytes` / `write_text` into an existing category directory: fails onto a sub-directory. */
  function WriteFile(root: CacheRoot, dir: string, name: string, f: CacheFile): (r: Result<CacheRoot, WriteFailure>)
    requires dir in root && root[dir].CategoryDir?
    ensures r.Ok? <==> name !in root[dir].entries || root[dir].entries[name].FileEntry?
    ensures r.Ok? ==> r.value.Keys == root.Keys && r.value[dir].CategoryDir?
    ensures r.Ok? ==> FileAt(r.value, dir, name) == Some(f)
    ensures r.Ok? ==> forall n :: n in root && n != dir ==> r.value[n] == root[n]
    ensures r.Ok? ==> forall n :: n in root[dir].entries && n != name ==>
      n in r.value[dir].entries && r.value[dir].entries[n] == root[dir].entries[n]
  {
    var entries := root[dir].entries;
    if name in entries && entries[name].SubDirEntry? then Err(IsADirectory(dir, name))
    else Ok(root[dir := CategoryDir(entries[name := FileEntry(f)])])
  }

  /** The write-through of `get_media_image`: create the directory, write the image, then its `.meta`. */
  function WriteThrough(root: CacheRoot, category: string, filename: string, png: seq<bv8>, identity: string, now: int): WriteOutcome
    requires IsImageFileName(filename)
  {
    match MakeDir(root, category)
    case Err(e) => WriteOutcome(root, Some(e))
    case Ok(r1) =>
      match WriteFile(r1, category, filename, CacheFile(Bytes(png), now))
      case Err(e) => WriteOutcome(r1, Some(e))
      case Ok(r2) =>
        match WriteFile(r2, category, MetaName(filename), CacheFile(TextContent(identity), now))
        case Err(e) => WriteOutcome(r2, Some(e))
        case Ok(r3) => WriteOutcome(r3, None)
  }

  /**
   * A completed write-through makes the next request for the same image under the same workbook
   * identity a hit, serving exactly the bytes written; other categories are untouched.
   */
  lemma HitAfterWriteThrough(root: CacheRoot, category: string, filename: string, png: seq<bv8>, identity: string, now: int)
    requires IsImageFileName(filename)
    requires identity != "" && Strip(identity) == identity
    requires WriteThrough(root, category, filename, png, identity, now).failure.None?
    ensures var r := WriteThrough(root, category, filename, png, identity, now).root;
      && IsCacheHit(r, category, filename, identity)
      && FileAt(r, category, filename) == Some(CacheFile(Bytes(png), now))
      && forall d :: d != category ==> (d in r <==> d in root) && (d in r ==> r[d] == root[d])
  {
    MetaNameIsNotImage(filename);
  }

  /** A write-through fails only on a name already taken by the wrong kind of entry. */
  lemma WriteThroughFailsOnlyOnClash(root: CacheRoot, category: string, filename: string, png: seq<bv8>, identity: string, now: int)
    requires IsImageFileName(filename)
    requires category !in root || (root[category].CategoryDir?
      && (filename !in root[category].entries || root[category].entries[filename].FileEntry?)
      && (MetaName(filename) !in root[category].entries || root[category].entries[MetaName(filename)].FileEntry?))
    ensures WriteThrough(root, category, filename, png, identity, now).failure.None?
  {
    MetaNameIsNotImage(filename);
  }

  /** A hit needs a `.meta` naming exactly the current identity: any other identity misses. */
  lemma HitNeedsSameIdentity(root: CacheRoot, category: string, filename: string, id1: string, id2: string)
    requires IsImageFileName(filename)
    requires IsCacheHit(root, category, filename, id1) && id1 != id2
    ensures !IsCacheHit(root, category, filename, id2)
  {
  }

  // ---------------------------------------------------------------------------
  // The identity marker.

  /** What the `.workbook_identity` marker records: its stripped text, or nothing when it is absent, empty or not a file. */
  function MarkerIdentity(root: CacheRoot): (r: Option<string>)
    ensures r.Some? ==> r.value != ""
  {
    if IdentityMarker in root && root[IdentityMarker].RootFile? then StrippedText(root[IdentityMarker].file) else None
  }

  /** `_identity_marker_path.write_text(identity)`: fails when a directory has the marker's name. */
  function WriteMarker(root: CacheRoot, identity: string, now: int): Result<CacheRoot, WriteFailure> {
    if IdentityMarker in root && root[IdentityMarker].CategoryDir? then Err(MarkerIsADirectory)
    else Ok(root[IdentityMarker := RootFile(CacheFile(TextContent(identity), now))])
  }

  /** A stored identity is read back, stripped, and the marker write touches nothing else. */
  lemma MarkerReadsBack(root: CacheRoot, identity: string, now: int)
    requires WriteMarker(root, identity, now).Ok?
    ensures MarkerIdentity(WriteMarker(root, identity, now).value) == if Strip(identity) == "" then None else Some(Strip(identity))
    ensures forall n :: n in root && n != IdentityMarker ==> WriteMarker(root, identity, now).value[n] == root[n]
  {
  }

  /** A write-through adds no entry to the cache root except the category directory. */
  lemma WriteThroughAddsOnlyCategory(root: CacheRoot, category: string, filename: string, png: seq<bv8>, identity: string, now: int)
    requires IsImageFileName(filename)
    ensures WriteThrough(root, category, filename, png, identity, now).root.Keys <= root.Keys + {category}
  {
  }

  /** A write-through never changes what the marker records: onto the marker's own name it fails. */
  lemma WriteThroughKeepsMarker(root: CacheRoot, category: string, filename: string, png: seq<bv8>, identity: string, now: int)
    requires IsImageFileName(filename)
    ensures MarkerIdentity(WriteThrough(root, category, filename, png, identity, now).root) == MarkerIdentity(root)
  {
    if MakeDir(root, category).Ok? {
      var r1 := MakeDir(root, category).value;
      MakeDirKeepsMarker(root, category);
      var w2 := WriteFile(r1, category, filename, CacheFile(Bytes(png), now));
      if w2.Ok? {
        WriteFileKeepsMarker(r1, category, filename, CacheFile(Bytes(png), now));
        var w3 := WriteFile(w2.value, category, MetaName(filename), CacheFile(TextContent(identity), now));
        if w3.Ok? {
          WriteFileKeepsMarker(w2.value, category, MetaName(filename), CacheFile(TextContent(identity), now));
        }
      }
    }
  }

  /** Creating a category directory leaves the marker as it was: a directory on the marker's name records nothing either way. */
  lemma MakeDirKeepsMarker(root: CacheRoot, dir: string)
    requires MakeDir(root, dir).Ok?
    ensures MarkerIdentity(MakeDir(root, dir).value) == MarkerIdentity(root)
  {
    var r := MakeDir(root, dir).value;
    if dir != IdentityMarker && IdentityMarker in root {
      assert r[IdentityMarker] == root[IdentityMarker];
    }
  }

  /** Writing a file into a category directory leaves the marker as it was. */
  lemma WriteFileKeepsMarker(root: CacheRoot, dir: string, name: string, f: CacheFile)
    requires dir in root && root[dir].CategoryDir? && WriteFile(root, dir, name, f).Ok?
    ensures MarkerIdentity(WriteFile(root, dir, name, f).value) == MarkerIdentity(root)
  {
    var r := WriteFile(root, dir, name, f).value;
    if dir != IdentityMarker && IdentityMarker in root {
      assert r[IdentityMarker] == root[IdentityMarker];
    }
  }

  // ---------------------------------------------------------------------------
  // Invalidation.

  /** Whether `_invalidate_stale_media_cache` has anything to do: a previous identity that differs from the new one. */
  predicate IsStale(oldIdentity: Option<string>, newIdentity: string) {
    oldIdentity.Some? && oldIdentity.value != "" && oldIdentity.value != newIdentity
  }

  /** An entry invalidation deletes: a file with a media cache name. */
  predicate IsPurged(entries: map<string, DirEntry>, n: string)
    requires n in entries
  {
    entries[n].FileEntry? && IsMediaCacheFileName(n)
  }

  /** A category directory's entries after its media files are deleted. */
  function PurgedEntries(entries: map<string, DirEntry>): map<string, DirEntry> {
    map n | n in entries && !IsPurged(entries, n) :: entries[n]
  }

  /** A root entry invalidation visits: a directory with a safe category name. */
  predicate IsVisitedDir(root: CacheRoot, n: string)
    requires n in root
  {
    root[n].CategoryDir? && IsSafeCategory(n)
  }

  /** The visited directories in which something was deleted. */
  function CleanedDirs(root: CacheRoot): set<string> {
    set n | n in root && IsVisitedDir(root, n) && PurgedEntries(root[n].entries) != root[n].entries
  }

  /** A cleaned directory left empty is removed. */
  predicate IsRemovedDir(root: CacheRoot, n: string)
    requires n in root
  {
    n in CleanedDirs(root) && PurgedEntries(root[n].entries) == map[]
  }

  /** The cache root after invalidation. */
  function InvalidatedRoot(root: CacheRoot): CacheRoot {
    map n | n in root && !IsRemovedDir(root, n) ::
      if IsVisitedDir(root, n) then CategoryDir(PurgedEntries(root[n].entries)) else root[n]
  }

  /** What invalidation does to one entry of the root. */
  lemma InvalidatedEntry(root: CacheRoot, n: string)
    requires n in root
    ensures n in InvalidatedRoot(root) <==> !IsRemovedDir(root, n)
    ensures n in InvalidatedRoot(root) ==>
      InvalidatedRoot(root)[n] == if IsVisitedDir(root, n) then CategoryDir(PurgedEntries(root[n].entries)) else root[n]
  {
  }

  /** Invalidation leaves no media cache file in any category directory it visits. */
  lemma NoMediaFilesAfterInvalidation(root: CacheRoot, dir: string, name: string)
    requires dir in InvalidatedRoot(root) && IsSafeCategory(dir)
    requires IsMediaCacheFileName(name)
    ensures FileAt(InvalidatedRoot(root), dir, name).None?
  {
  }

  /**
   * Nothing else changes: plain files at the root, directories with unsafe names, and every
   * entry that is not a media cache file stay exactly as they were.
   */
  lemma InvalidationKeepsOtherEntries(root: CacheRoot, dir: string, name: string)
    requires dir in root
    ensures !IsVisitedDir(root, dir) ==> dir in InvalidatedRoot(root) && InvalidatedRoot(root)[dir] == root[dir]
    ensures IsVisitedDir(root, dir) && name in root[dir].entries && !IsPurged(root[dir].entries, name)
        ==> dir in InvalidatedRoot(root) && InvalidatedRoot(root)[dir].CategoryDir?
            && name in InvalidatedRoot(root)[dir].entries
            && InvalidatedRoot(root)[dir].entries[name] == root[dir].entries[name]
  {
    if IsVisitedDir(root, dir) && name in root[dir].entries && !IsPurged(root[dir].entries, name) {
      assert name in PurgedEntries(root[dir].entries);
    }
  }

  /** A directory disappears only when invalidation emptied it. */
  lemma RemovedDirsWereEmptied(root: CacheRoot, dir: string)
    requires dir in root && dir !in InvalidatedRoot(root)
    ensures IsVisitedDir(root, dir) && dir in CleanedDirs(root)
    ensures forall n :: n in root[dir].entries ==> IsPurged(root[dir].entries, n)
  {
    var entries := root[dir].entries;
    forall n | n in entries
      ensures IsPurged(entries, n)
    {
      assert n !in PurgedEntries(entries);
    }
  }

  /** A second invalidation finds nothing to delete. */
  lemma InvalidationIdempotent(root: CacheRoot)
    ensures CleanedDirs(InvalidatedRoot(root)) == {}
    ensures InvalidatedRoot(InvalidatedRoot(root)) == InvalidatedRoot(root)
  {
    var r := InvalidatedRoot(root);
    forall n | n in r && IsVisitedDir(r, n)
      ensures PurgedEntries(r[n].entries) == r[n].entries
    {
      var e := r[n].entries;
      assert forall m :: m in e ==> !IsPurged(e, m);
    }
    assert CleanedDirs(r) == {};
    forall n | n in r
      ensures !IsRemovedDir(r, n)
    {
    }
    assert InvalidatedRoot(r) == r;
  }

  /** After invalidation no cached image of any category is served. */
  lemma NoHitAfterInvalidation(root: CacheRoot, category: string, filename: string, current: string)
    requires IsImageFileName(filename) && IsSafeCategory(category)
    ensures !IsCacheHit(InvalidatedRoot(root), category, filename, current)
  {
    if category in InvalidatedRoot(root) {
      NoMediaFilesAfterInvalidation(root, category, filename);
    }
  }

  /** Invalidation never touches the marker: plain files at the root are not visited. */
  lemma InvalidationKeepsMarker(root: CacheRoot)
    ensures MarkerIdentity(InvalidatedRoot(root)) == MarkerIdentity(root)
  {
    if IdentityMarker in root && root[IdentityMarker].RootFile? {
      InvalidationKeepsOtherEntries(root, IdentityMarker, "");
    } else if IdentityMarker in InvalidatedRoot(root) {
      assert IdentityMarker in root;
    }
  }

  // ---------------------------------------------------------------------------
  // ETag.

  /** `f"{n:x}"` of a stat field, then `-`. */
  function EtagStat(st: FileStat): string {
    FormatInt(st.mtimeNs, 16) + "-" + FormatNat(st.size, 16) + "-"
  }

  /**
   * `_build_media_etag`: a weak ETag from the image file's modification time and size, in
   * lower-case hexadecimal, and the first 16 hex digits of a hash of `<identity>|<filename>`,
   * which `hash` stands for.
   */
  function BuildMediaEtag(st: FileStat, identity: string, filename: string, hash: string -> string): (etag: string)
    ensures "W/\"" <= etag && etag[|etag| - 1] == '"'
  {
    "W/\"" + EtagStat(st) + hash(identity + "|" + filename) + "\""
  }

  lemma HexHasNoDash(n: nat)
    ensures '-' !in FormatNat(n, 16)
  {
    var s := FormatNat(n, 16);
    assert forall k :: 0 <= k < |s| ==> s[k] != '-';
  }

  function Abs(i: int): nat {
    if i < 0 then -i else i
  }

  function Sign(i: int): string {
    if i < 0 then "-" else ""
  }

  /** The stat part of an ETag: an optional sign, then three fields separated by `-`. */
  lemma EtagStatShape(st: FileStat, h: string)
    ensures EtagStat(st) + h == Sign(st.mtimeNs) + (FormatNat(Abs(st.mtimeNs), 16) + "-" + (FormatNat(st.size, 16) + "-" + h))
    ensures |EtagStat(st) + h| > 0 && ((EtagStat(st) + h)[0] == '-' <==> st.mtimeNs < 0)
  {
    var mag := FormatNat(Abs(st.mtimeNs), 16);
    var z := FormatNat(st.size, 16);
    var sg := Sign(st.mtimeNs);
    assert FormatInt(st.mtimeNs, 16) == sg + mag;
    calc {
      EtagStat(st) + h;
      ((sg + mag) + "-" + z + "-") + h;
      { EtagStatRegroup(sg, mag, z, h); }
      sg + (mag + "-" + (z + "-" + h));
    }
    SignedFirstChar(st.mtimeNs, mag + "-" + (z + "-" + h));
  }

  lemma EtagStatRegroup(sg: string, mag: string, z: string, h: string)
    ensures ((sg + mag) + "-" + z + "-") + h == sg + (mag + "-" + (z + "-" + h))
  {
  }

  /** The first character after an optional sign is `-` exactly for a negative number. */
  lemma SignedFirstChar(i: int, rest: string)
    requires |rest| > 0 && rest[0] != '-'
    ensures |Sign(i) + rest| > 0 && ((Sign(i) + rest)[0] == '-' <==> i < 0)
  {
  }

  /** The stat part of an ETag can be read back: different stats give different prefixes. */
  lemma EtagStatInjective(s1: FileStat, s2: FileStat, h1: string, h2: string)
    requires EtagStat(s1) + h1 == EtagStat(s2) + h2
    ensures s1 == s2
  {
    var t := EtagStat(s1) + h1;
    EtagStatShape(s1, h1);
    EtagStatShape(s2, h2);
    assert (s1.mtimeNs < 0) == (s2.mtimeNs < 0);
    var k := |Sign(s1.mtimeNs)|;
    assert Sign(s1.mtimeNs) == Sign(s2.mtimeNs);
    var m1, m2 := FormatNat(Abs(s1.mtimeNs), 16), FormatNat(Abs(s2.mtimeNs), 16);
    var z1, z2 := FormatNat(s1.size, 16), FormatNat(s2.size, 16);
    assert t[k..] == m1 + "-" + (z1 + "-" + h1) == m2 + "-" + (z2 + "-" + h2);
    HexHasNoDash(Abs(s1.mtimeNs));
    HexHasNoDash(Abs(s2.mtimeNs));
    HexHasNoDash(s1.size);
    HexHasNoDash(s2.size);
    SeparatorSplitsUniquely(m1, z1 + "-" + h1, m2, z2 + "-" + h2, '-');
    SeparatorSplitsUniquely(z1, h1, z2, h2, '-');
    FormatInjective(Abs(s1.mtimeNs), Abs(s2.mtimeNs), 16);
    FormatInjective(s1.size, s2.size, 16);
  }

  /** A rewritten image with a new modification time or size gets a new ETag, whatever the hash. */
  lemma EtagTracksFileStat(s1: FileStat, s2: FileStat, id1: string, id2: string, filename: string, hash: string -> string)
    requires s1 != s2
    ensures BuildMediaEtag(s1, id1, filename, hash) != BuildMediaEtag(s2, id2, filename, hash)
  {
    var e1 := BuildMediaEtag(s1, id1, filename, hash);
    var e2 := BuildMediaEtag(s2, id2, filename, hash);
    var h1 := hash(id1 + "|" + filename) + "\"";
    var h2 := hash(id2 + "|" + filename) + "\"";
    if e1 == e2 {
      assert e1[3..] == EtagStat(s1) + h1;
      assert e2[3..] == EtagStat(s2) + h2;
      EtagStatInjective(s1, s2, h1, h2);
    }
  }
}
