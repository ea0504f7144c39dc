/**
 * `CatalogService`: the object that owns the media cache directory and remembers the identity
 * of the workbook it last built from. Its methods change the cache and that field step by step,
 * and each is proved to do exactly what the functions of `CatalogModel` (and `MediaCache`)
 * specify, so every property proved there holds of the service.
 */
module CatalogSvc {
  import opened Wrappers
  import opened SheetNames
  import opened Diagnostics
  import opened PackageInspector
  import opened Identity
  import opened MediaCache
  import opened CatalogModel

  class CatalogService {
    /** The cache directory's contents. */
    var cache: CacheRoot
    /** `_last_built_workbook_identity`. */
    var lastBuiltIdentity: Option<string>

    /** A service over an existing cache directory, remembering no identity yet. */
    constructor (existing: CacheRoot)
      ensures cache == existing && lastBuiltIdentity == None
    {
      cache := existing;
      lastBuiltIdentity := None;
    }

    /**
     * `_read_last_built_workbook_identity`: the remembered identity when it is set, else the
     * marker's, which is then remembered.
     */
    method ReadLastBuiltIdentity() returns (identity: Option<string>)
      modifies this
      ensures identity == LastBuiltIdentity(old(lastBuiltIdentity), old(cache))
      ensures cache == old(cache)
      ensures lastBuiltIdentity == if identity.Some? then identity else old(lastBuiltIdentity)
    {
      if lastBuiltIdentity.Some? && lastBuiltIdentity.value != "" {
        return lastBuiltIdentity;
      }
      if IdentityMarker !in cache || !cache[IdentityMarker].RootFile? {
        return None;
      }
      identity := StrippedText(cache[IdentityMarker].file);
      if identity.Some? {
        lastBuiltIdentity := identity;
      }
    }

    /** `_store_last_built_workbook_identity`: remember the identity, then write the marker. */
    method StoreLastBuiltIdentity(identity: string, now: int) returns (failure: Option<WriteFailure>)
      modifies this
      ensures lastBuiltIdentity == Some(identity)
      ensures match WriteMarker(old(cache), identity, now)
        case Ok(r) => failure.None? && cache == r
        case Err(f) => failure == Some(f) && cache == old(cache)
    {
      lastBuiltIdentity := Some(identity);
      if IdentityMarker in cache && cache[IdentityMarker].CategoryDir? {
        return Some(MarkerIsADirectory);
      }
      cache := cache[IdentityMarker := RootFile(CacheFile(TextContent(identity), now))];
      failure := None;
    }

    /**
     * `_invalidate_stale_media_cache`: when the identity changed, visit every safe category
     * directory, delete its media cache files, and remove it when that left it empty. Returns
     * the directories in which something was deleted, each once.
     */
    method InvalidateStaleMediaCache(oldIdentity: Option<string>, newIdentity: string) returns (cleaned: seq<string>)
      modifies this
      ensures lastBuiltIdentity == old(lastBuiltIdentity)
      ensures !IsStale(oldIdentity, newIdentity) ==> cleaned == [] && cache == old(cache)
      ensures IsStale(oldIdentity, newIdentity) ==> cache == InvalidatedRoot(old(cache))
      ensures forall d :: d in cleaned <==> IsStale(oldIdentity, newIdentity) && d in CleanedDirs(old(cache))
      ensures forall i, j :: 0 <= i < j < |cleaned| ==> cleaned[i] != cleaned[j]
    {
      cleaned := [];
      if !IsStale(oldIdentity, newIdentity) {
        return;
      }
      cleaned, cache := InvalidateRoot(cache);
    }

    /** The loop of `_invalidate_stale_media_cache` over the children of the cache root. */
    static method InvalidateRoot(root: CacheRoot) returns (cleaned: seq<string>, result: CacheRoot)
      ensures result == InvalidatedRoot(root)
      ensures forall d :: d in cleaned <==> d in CleanedDirs(root)
      ensures forall i, j :: 0 <= i < j < |cleaned| ==> cleaned[i] != cleaned[j]
    {
      ghost var target := InvalidatedRoot(root);
      ghost var cleanedSet := CleanedDirs(root);
      cleaned := [];
      result := map[];
      var todo := root.Keys;
      while todo != {}
        invariant todo <= root.Keys
        invariant forall n :: n in result ==> n in target && n !in todo && result[n] == target[n]
        invariant forall n :: n in target && n !in todo ==> n in result
        invariant forall d :: d in cleaned <==> d in cleanedSet && d !in todo
        invariant forall i, j :: 0 <= i < j < |cleaned| ==> cleaned[i] != cleaned[j]
        decreases |todo|
      {
        var n :| n in todo;
        todo := todo - {n};
        var entry, cleanedHere := VisitCacheEntry(root, n);
        if cleanedHere {
          cleaned := cleaned + [n];
        }
        if entry.Some? {
          result := result[n := entry.value];
        }
      }
      assert result.Keys == target.Keys;
    }

    /**
     * One child of the cache root during invalidation: a safe category directory has its media
     * cache files deleted and is removed when that left it empty; anything else stays as it is.
     */
    static method VisitCacheEntry(root: CacheRoot, n: string) returns (entry: Option<RootEntry>, cleanedHere: bool)
      requires n in root
      ensures entry.None? <==> n !in InvalidatedRoot(root)
      ensures entry.Some? ==> entry.value == InvalidatedRoot(root)[n]
      ensures cleanedHere <==> n in CleanedDirs(root)
    {
      InvalidatedEntry(root, n);
      if !root[n].CategoryDir? || !IsSafeCategory(n) {
        return Some(root[n]), false;
      }
      var kept, removed := PurgeMediaFiles(root[n].entries);
      if removed && kept == map[] {
        return None, true;
      }
      return Some(CategoryDir(kept)), removed;
    }

    /**
     * The inner loop of `_invalidate_stale_media_cache`: the entries of one category directory
     * after its media cache files are deleted, and whether any was.
     */
    static method PurgeMediaFiles(entries: map<string, DirEntry>) returns (kept: map<string, DirEntry>, removed: bool)
      ensures kept == PurgedEntries(entries)
      ensures removed <==> kept != entries
    {
      kept := entries;
      removed := false;
      var todo := entries.Keys;
      while todo != {}
        invariant todo <= entries.Keys
        invariant forall m :: m in kept ==> m in entries && kept[m] == entries[m]
        invariant forall m :: m in todo ==> m in kept
        invariant forall m :: m in entries && m !in todo ==> (m in kept <==> !IsPurged(entries, m))
        invariant removed <==> kept.Keys != entries.Keys
        decreases |todo|
      {
        var m :| m in todo;
        todo := todo - {m};
        if entries[m].FileEntry? && IsMediaCacheFileName(m) {
          kept := kept - {m};
          removed := true;
        }
      }
      assert kept == PurgedEntries(entries);
      if !removed {
        assert kept == entries;
      }
    }

    /**
     * The image loop of `build_catalog_result` for one worksheet: save each image that decodes
     * as `img_<position>.png` in `dir` and list its URL; count every other one as a failure.
     */
    method SaveSheetImages(dir: string, images: seq<EmbeddedImage>, now: int) returns (urls: seq<string>, failures: nat)
      requires dir in cache && cache[dir].CategoryDir?
      modifies this
      ensures var p := SaveImages(old(cache), dir, images, now);
        cache == p.root && urls == Urls(dir, p.saved) && failures == p.failures
      ensures lastBuiltIdentity == old(lastBuiltIdentity)
    {
      ghost var root := cache;
      ghost var saved: seq<nat> := [];
      urls := [];
      failures := 0;
      var i := 0;
      while i < |images|
        invariant 0 <= i <= |images|
        invariant SaveImages(root, dir, images[..i], now) == ImagePass(cache, saved, failures)
        invariant urls == Urls(dir, saved)
        invariant lastBuiltIdentity == old(lastBuiltIdentity)
      {
        SaveImagesStep(root, dir, images, i, now);
        var image := images[i];
        if image.png.None? {
          failures := failures + 1;
        } else {
          match WriteFile(cache, dir, ImageFileName(i + 1), CacheFile(Bytes(image.png.value), now))
          case Err(_) =>
            failures := failures + 1;
          case Ok(r) =>
            cache := r;
            UrlsSnoc(dir, saved, i + 1);
            saved := saved + [i + 1];
            urls := urls + [ImageUrl(dir, i + 1)];
        }
        i := i + 1;
      }
      assert images[..i] == images;
    }

    /**
     * One iteration of the worksheet loop of `build_catalog_result`: skip a default sheet;
     * otherwise name and create its directory, count its `#UNKNOWN!` cells, save its images,
     * and append its category and stat.
     */
    method CatalogWorksheet(acc: Progress, ws: Worksheet, now: int) returns (r: Result<Progress, WriteFailure>)
      modifies this
      ensures CatalogSheet(old(cache), acc, ws, now) == if r.Ok? then Ok((cache, r.value)) else Err(r.error)
      ensures r.Err? ==> cache == old(cache)
      ensures lastBuiltIdentity == old(lastBuiltIdentity)
    {
      if ShouldIgnoreSheet(ws.title) {
        return Ok(acc);
      }
      var dir, _ := ResolveUniqueDirName(SafeSheetDirName(ws.title), acc.used);
      var made := MakeDir(cache, dir);
      if made.Err? {
        return Err(made.error);
      }
      cache := made.value;
      var next := CatalogIntoDir(acc, ws, dir, now);
      r := Ok(next);
    }

    /** The rest of the iteration once the worksheet's directory exists: count, save, and append. */
    method CatalogIntoDir(acc: Progress, ws: Worksheet, dir: string, now: int) returns (next: Progress)
      requires dir in cache && cache[dir].CategoryDir?
      modifies this
      ensures var pass := SaveImages(old(cache), dir, ws.images, now);
        && cache == pass.root
        && next == Appended(acc, ws.title, dir, DiagnosticsAfter(DiagnosticsFor(acc.diags, ws.title), ws.rows, pass.failures), Urls(dir, pass.saved))
      ensures lastBuiltIdentity == old(lastBuiltIdentity)
    {
      var d := DiagnosticsFor(acc.diags, ws.title);
      var unknown := CountUnknownErrorCells(ws.rows);
      d := d.(unknownErrorCells := unknown);
      var urls, failures := SaveSheetImages(dir, ws.images, now);
      d := d.(extractionFailures := d.extractionFailures + failures);
      ghost var pass := SaveImages(old(cache), dir, ws.images, now);
      assert d == DiagnosticsAfter(DiagnosticsFor(acc.diags, ws.title), ws.rows, pass.failures);
      assert urls == Urls(dir, pass.saved);
      next := Appended(acc, ws.title, dir, d, urls);
    }

    /**
     * `get_media_image`: reject an unsafe category or a malformed file name; serve a cached
     * image whose `.meta` names the current workbook; otherwise extract the image from the
     * workbook and write it, then its `.meta`, through to the cache.
     */
    method GetMediaImage(category: string, filename: string, w: World) returns (res: Result<MediaImageResult, ServiceError>)
      modifies this
      ensures (res, cache) == MediaRequest(old(cache), category, filename, w)
      ensures lastBuiltIdentity == old(lastBuiltIdentity)
    {
      if !IsCacheCategory(category) {
        return Err(InvalidCategory);
      }
      var index := ParseFilenameIndex(filename);
      if index.None? {
        return Err(InvalidFilename);
      }
      var current := PeekWorkbookIdentity(w.sources);
      var cached := FileAt(cache, category, filename);
      if cached.Some? {
        var cachedIdentity := CachedIdentity(cache, category, MetaName(filename));
        if cachedIdentity == Some(current) {
          var f := cached.value;
          return Ok(MediaImageResult(f.content, BuildMediaEtag(Stat(f), current, filename, w.hash), true, SourceOfIdentity(current), current));
        }
      }

      var extracted := ExtractImage(w, category, index.value);
      if extracted.Err? {
        return Err(extracted.error);
      }
      var x := extracted.value;
      var failure := WriteThroughCache(category, filename, x.png, x.identity, w.now);
      if failure.Some? {
        return Err(CacheWriteFailed(failure.value));
      }
      res := Ok(MediaImageResult(Bytes(x.png), FreshEtag(x.png, w.now, x.identity, filename, w.hash), false, x.path, x.identity));
    }

    /**
     * The miss path of `get_media_image` up to the write: resolve and identify the workbook,
     * find the worksheet whose directory is `category`, and re-encode image `index`.
     */
    static method ExtractImage(w: World, category: string, index: nat) returns (r: Result<Extracted, ServiceError>)
      ensures r == FetchImage(w, category, index)
    {
      var resolved := ResolveWorkbookPath(w.sources, w.graphClientConfigured);
      if resolved.Err? {
        return Err(SourceUnavailable(resolved.error));
      }
      var path := resolved.value;
      var identity := ResolvedIdentity(w, path);
      if w.workbook.worksheets.None? {
        return Err(WorkbookUnreadable);
      }
      var sheets := w.workbook.worksheets.value;
      var found := ResolveSheetByCategory(Titles(sheets), category);
      if found.None? {
        return Err(UnknownCategory);
      }
      var images := sheets[found.value].images;
      if index < 1 || index > |images| {
        return Err(IndexOutOfRange);
      }
      var png := images[index - 1].png;
      if png.None? {
        return Err(ExtractionFailed);
      }
      r := Ok(Extracted(path, identity, png.value));
    }

    /** The write-through of `get_media_image`: create the category directory, write the image, then its `.meta`. */
    method WriteThroughCache(category: string, filename: string, png: seq<bv8>, identity: string, now: int) returns (failure: Option<WriteFailure>)
      requires IsImageFileName(filename)
      modifies this
      ensures cache == WriteThrough(old(cache), category, filename, png, identity, now).root
      ensures failure == WriteThrough(old(cache), category, filename, png, identity, now).failure
      ensures lastBuiltIdentity == old(lastBuiltIdentity)
    {
      match MakeDir(cache, category)
      case Err(e) =>
        return Some(e);
      case Ok(r1) =>
        cache := r1;
      match WriteFile(cache, category, filename, CacheFile(Bytes(png), now))
      case Err(e) =>
        return Some(e);
      case Ok(r2) =>
        cache := r2;
      match WriteFile(cache, category, MetaName(filename), CacheFile(TextContent(identity), now))
      case Err(e) =>
        return Some(e);
      case Ok(r3) =>
        cache := r3;
      failure := None;
    }

    /**
     * `build_catalog_result`: resolve and identify the workbook, inspect its package, invalidate
     * a stale cache, remember the identity, then catalog every worksheet that is not a default one.
     */
    method BuildCatalogResult(w: World) returns (res: Result<CatalogBuildResult, ServiceError>)
      modifies this
      ensures BuildOutcome(res, cache, lastBuiltIdentity) == BuildCatalog(old(cache), old(lastBuiltIdentity), w)
    {
      var resolved := ResolveWorkbookPath(w.sources, w.graphClientConfigured);
      if resolved.Err? {
        return Err(SourceUnavailable(resolved.error));
      }
      var path := resolved.value;
      var identity := ResolvedIdentity(w, path);
      if w.workbook.package.None? {
        return Err(BadZipFile);
      }
      var analysis := AnalyzeXlsxPackage(w.workbook.package.value);
      if analysis.Err? {
        return Err(MalformedPackage(analysis.error));
      }
      var diags := analysis.value.0;

      ghost var refreshed := RefreshedRoot(cache, lastBuiltIdentity, identity);
      var previous := ReadLastBuiltIdentity();
      var _ := InvalidateStaleMediaCache(previous, identity);
      assert cache == refreshed;
      var failure := StoreLastBuiltIdentity(identity, w.now);
      if failure.Some? {
        return Err(CacheWriteFailed(failure.value));
      }
      if w.workbook.worksheets.None? {
        return Err(WorkbookUnreadable);
      }
      var sheets := w.workbook.worksheets.value;

      ghost var marked := cache;
      var acc := StartProgress.(diags := diags);
      var i := 0;
      while i < |sheets|
        invariant 0 <= i <= |sheets|
        invariant CatalogSheets(cache, acc, sheets[i..], w.now) == CatalogSheets(marked, StartProgress.(diags := diags), sheets, w.now)
        invariant lastBuiltIdentity == Some(identity)
      {
        assert sheets[i..][1..] == sheets[i + 1..];
        var step := CatalogWorksheet(acc, sheets[i], w.now);
        if step.Err? {
          return Err(CacheWriteFailed(step.error));
        }
        acc := step.value;
        i := i + 1;
      }
      res := Ok(CatalogBuildResult(acc.categories, path, identity, acc.total, acc.stats));
    }
  }
}
