/**
 * The two requests of the catalog service as functions of the media cache and of what the
 * outside world answers during the request: where the workbook comes from, what its package
 * and its worksheets hold, the hash the ETag uses and the clock.
 *
 * `get_media_image` serves one image of a category, from the cache or by extracting it from
 * the workbook and writing it through. `build_catalog_result` inspects the package, brings the
 * cache up to date with the workbook, and emits one category per worksheet that is not a
 * default `Sheet<digits>` sheet, writing that sheet's images into its category directory.
 */
module CatalogModel {
  import opened Wrappers
  import opened Text
  import opened SheetNames
  import opened Diagnostics
  import opened PackageInspector
  import opened Identity
  import opened MediaCache

  /** An image the workbook reader found on a worksheet: its data re-encoded as PNG, or nothing when decoding fails. */
  datatype EmbeddedImage = EmbeddedImage(png: Option<seq<bv8>>)

  /** A worksheet as the workbook reader loads it: its title, its cells row by row, and its images in order. */
  datatype Worksheet = Worksheet(title: string, rows: seq<seq<Cell>>, images: seq<EmbeddedImage>)

  /**
   * The workbook file the source resolves to: its stat, the content signature of graph mode,
   * the package as the zip reader sees it (nothing when it is not a zip archive) and the
   * worksheets (nothing when the workbook reader fails).
   */
  datatype WorkbookFile = WorkbookFile(
    stat: FileStat,
    signature: Option<string>,
    package: Option<Archive>,
    worksheets: Option<seq<Worksheet>>)

  /** What the outside world answers during one request. */
  datatype World = World(
    sources: IdentitySources,
    graphClientConfigured: bool,
    workbook: WorkbookFile,
    hash: string -> string,
    now: int)

  /** Why `_resolve_workbook_path` raised. */
  datatype SourceError = GraphClientMissing | NoLocalSource | LocalFileNotFound(path: string)

  /** The exceptions a request ends with. */
  datatype ServiceError =
    | SourceUnavailable(source: SourceError)
    | InvalidCategory
    | InvalidFilename
    | UnknownCategory
    | IndexOutOfRange
    | ExtractionFailed
    | BadZipFile
    | MalformedPackage(inspect: InspectError)
    | WorkbookUnreadable
    | CacheWriteFailed(write: WriteFailure)

  /**
   * `_resolve_workbook_path`: the graph download path when a Graph client exists, else the
   * configured local path when it names a regular file.
   */
  function ResolveWorkbookPath(src: IdentitySources, graphClientConfigured: bool): (r: Result<string, SourceError>)
    ensures r.Ok? <==> if src.mode == GraphMode then graphClientConfigured
                       else src.localPath.Some? && src.localState.RegularFile?
    ensures r.Ok? ==> r.value == if src.mode == GraphMode then src.graphPath else src.localPath.value
  {
    if src.mode == GraphMode then
      if graphClientConfigured then Ok(src.graphPath) else Err(GraphClientMissing)
    else if src.localPath.None? then Err(NoLocalSource)
    else if src.localState.NotAFile? then Err(LocalFileNotFound(src.localPath.value))
    else Ok(src.localPath.value)
  }

  /** `_compute_workbook_identity` of the resolved workbook. */
  function ResolvedIdentity(w: World, path: string): string {
    ComputeWorkbookIdentity(w.sources.mode, path, RegularFile(w.workbook.stat), w.workbook.signature)
  }

  /**
   * The sources `src`, in `mode`, see the workbook file `wb` at `path`: in graph mode the
   * download path holds a file with `wb`'s stat and content signature; otherwise the local
   * path is `path` and holds a file with `wb`'s stat.
   */
  predicate SeesWorkbook(src: IdentitySources, mode: string, path: string, wb: WorkbookFile) {
    && src.mode == mode
    && if mode == GraphMode then
         src.graphPath == path && src.graphState == RegularFile(wb.stat) && src.graphSignature == wb.signature
       else
         src.localPath == Some(path) && src.localState == RegularFile(wb.stat)
  }

  /**
   * Peeking at sources that still see the resolved workbook gives the identity that a miss or
   * a build computes for it, so a later request can match what an earlier one cached.
   */
  lemma PeekAgreesWithResolved(w: World, src: IdentitySources, path: string)
    requires ResolveWorkbookPath(w.sources, w.graphClientConfigured) == Ok(path)
    requires SeesWorkbook(src, w.sources.mode, path, w.workbook)
    ensures PeekWorkbookIdentity(src) == ResolvedIdentity(w, path)
  {
  }

  /** Outside graph mode, a local file whose stat changed since the workbook was read peeks as a different identity. */
  lemma PeekSeesChangedLocalFile(w: World, src: IdentitySources, path: string)
    requires w.sources.mode != GraphMode && src.mode == w.sources.mode
    requires src.localPath == Some(path) && src.localState != RegularFile(w.workbook.stat)
    ensures PeekWorkbookIdentity(src) != ResolvedIdentity(w, path)
  {
    if PeekWorkbookIdentity(src) == ResolvedIdentity(w, path) {
      IdentityFromPathInjective(path, src.localState, RegularFile(w.workbook.stat));
    }
  }

  function Titles(sheets: seq<Worksheet>): (ts: seq<string>)
    ensures |ts| == |sheets| && forall i :: 0 <= i < |sheets| ==> ts[i] == sheets[i].title
  {
    seq(|sheets|, i requires 0 <= i < |sheets| => sheets[i].title)
  }

  // ---------------------------------------------------------------------------
  // `get_media_image`.

  /** `MediaImageResult`: the served file's content, its ETag, and which workbook it came from. */
  datatype MediaImageResult = MediaImageResult(
    content: FileContent,
    etag: string,
    cacheHit: bool,
    workbookSource: string,
    workbookIdentity: string)

  /** What a cache miss extracts: the workbook path, its identity and the image as PNG. */
  datatype Extracted = Extracted(path: string, identity: string, png: seq<bv8>)

  /**
   * The miss path of `get_media_image` up to the write: resolve and identify the workbook,
   * load it, find the worksheet whose directory is `category`, and re-encode image `index`.
   */
  function FetchImage(w: World, category: string, index: nat): (r: Result<Extracted, ServiceError>)
    ensures r.Ok? ==> 1 <= index && ResolveWorkbookPath(w.sources, w.graphClientConfigured) == Ok(r.value.path)
                      && r.value.identity == ResolvedIdentity(w, r.value.path)
  {
    match ResolveWorkbookPath(w.sources, w.graphClientConfigured)
    case Err(e) => Err(SourceUnavailable(e))
    case Ok(path) =>
      if w.workbook.worksheets.None? then Err(WorkbookUnreadable)
      else
        var sheets := w.workbook.worksheets.value;
        match FirstIndexOf(AssignedDirs(Titles(sheets), {}), category)
        case None => Err(UnknownCategory)
        case Some(p) =>
          var images := sheets[p].images;
          if index < 1 || index > |images| then Err(IndexOutOfRange)
          else if images[index - 1].png.None? then Err(ExtractionFailed)
          else Ok(Extracted(path, ResolvedIdentity(w, path), images[index - 1].png.value))
  }

  /**
   * What a miss extracts: an index no greater than the image count of the worksheet the
   * category names, and the PNG of that image.
   */
  lemma FetchImageFromFoundSheet(w: World, category: string, index: nat)
    requires FetchImage(w, category, index).Ok?
    ensures w.workbook.worksheets.Some?
    ensures var sheets := w.workbook.worksheets.value;
      var p := FirstIndexOf(AssignedDirs(Titles(sheets), {}), category);
      && p.Some?
      && 1 <= index <= |sheets[p.value].images|
      && sheets[p.value].images[index - 1].png == Some(FetchImage(w, category, index).value.png)
  {
  }

  /** The ETag of an image the request has just written. */
  function FreshEtag(png: seq<bv8>, now: int, identity: string, filename: string, hash: string -> string): string {
    BuildMediaEtag(Stat(CacheFile(Bytes(png), now)), identity, filename, hash)
  }

  /**
   * `get_media_image(category, filename)`: the response and the cache afterwards. Invalid
   * names, and the categories `.` and `..`, are rejected before the cache is looked at; a hit is served from the cache; a miss
   * extracts the image and writes it, then its `.meta`, through to the cache.
   */
  function MediaRequest(root: CacheRoot, category: string, filename: string, w: World): (Result<MediaImageResult, ServiceError>, CacheRoot) {
    if !IsCacheCategory(category) then (Err(InvalidCategory), root)
    else if ParseFilenameIndex(filename).None? then (Err(InvalidFilename), root)
    else
      var current := PeekWorkbookIdentity(w.sources);
      if IsCacheHit(root, category, filename, current) then
        var f := FileAt(root, category, filename).value;
        (Ok(MediaImageResult(f.content, BuildMediaEtag(Stat(f), current, filename, w.hash), true, SourceOfIdentity(current), current)), root)
      else
        match FetchImage(w, category, ParseFilenameIndex(filename).value)
        case Err(e) => (Err(e), root)
        case Ok(x) =>
          var out := WriteThrough(root, category, filename, x.png, x.identity, w.now);
          if out.failure.Some? then (Err(CacheWriteFailed(out.failure.value)), out.root)
          else (Ok(MediaImageResult(Bytes(x.png), FreshEtag(x.png, w.now, x.identity, filename, w.hash), false, x.path, x.identity)), out.root)
  }

  /** An unsafe category, `.`, `..`, or a name that is not `img_<digits>.png` is rejected whatever the cache holds, and the cache is left alone. */
  lemma RejectedBeforeCacheAccess(root1: CacheRoot, root2: CacheRoot, category: string, filename: string, w: World)
    requires !IsCacheCategory(category) || !IsImageFileName(filename)
    ensures MediaRequest(root1, category, filename, w).1 == root1
    ensures MediaRequest(root1, category, filename, w).0 == MediaRequest(root2, category, filename, w).0
    ensures MediaRequest(root1, category, filename, w).0 == Err(if !IsCacheCategory(category) then InvalidCategory else InvalidFilename)
  {
  }

  /**
   * A request is answered from the cache exactly when the image is cached under the identity
   * of the current workbook; a hit changes nothing and serves the cached file.
   */
  lemma HitIffCachedUnderCurrentIdentity(root: CacheRoot, category: string, filename: string, w: World)
    requires IsCacheCategory(category) && IsImageFileName(filename)
    ensures var (res, after) := MediaRequest(root, category, filename, w);
      (res.Ok? && res.value.cacheHit) <==> IsCacheHit(root, category, filename, PeekWorkbookIdentity(w.sources))
    ensures var (res, after) := MediaRequest(root, category, filename, w);
      res.Ok? && res.value.cacheHit ==>
        after == root && res.value.content == FileAt(root, category, filename).value.content
        && res.value.workbookIdentity == PeekWorkbookIdentity(w.sources)
  {
  }

  /**
   * On a miss, an index above the image count of the worksheet the category names is rejected
   * and nothing is written; once the workbook resolves, the error is `IndexOutOfRange`.
   */
  lemma IndexAboveCountRejected(root: CacheRoot, category: string, filename: string, w: World)
    requires IsCacheCategory(category) && ParseFilenameIndex(filename).Some?
    requires !IsCacheHit(root, category, filename, PeekWorkbookIdentity(w.sources))
    requires w.workbook.worksheets.Some?
    requires var p := FirstIndexOf(AssignedDirs(Titles(w.workbook.worksheets.value), {}), category);
      p.Some? && ParseFilenameIndex(filename).value > |w.workbook.worksheets.value[p.value].images|
    ensures MediaRequest(root, category, filename, w).0.Err?
    ensures MediaRequest(root, category, filename, w).1 == root
    ensures ResolveWorkbookPath(w.sources, w.graphClientConfigured).Ok? ==>
      MediaRequest(root, category, filename, w).0 == Err(IndexOutOfRange)
  {
  }

  /** `img_0.png` names no image: on a miss it is rejected and nothing is written. */
  lemma ImageZeroNeverExtracted(root: CacheRoot, category: string, w: World)
    requires IsCacheCategory(category)
    requires !IsCacheHit(root, category, ImageFileName(0), PeekWorkbookIdentity(w.sources))
    ensures MediaRequest(root, category, ImageFileName(0), w).0.Err?
    ensures MediaRequest(root, category, ImageFileName(0), w).1 == root
  {
    ParseImageFileName(0);
  }

  /**
   * A miss that succeeds leaves the image cached under the identity it was extracted with, and
   * asking again while that identity is current is a hit that repeats the response: the same
   * bytes, the same ETag, the same workbook; only the hit flag differs. The identity is
   * current when the later request's sources still see the same workbook file. The workbook
   * source read back from the identity is the path when the path holds no `|`.
   */
  lemma HitRepeatsMiss(root: CacheRoot, category: string, filename: string, w: World, w2: World)
    requires IsCacheCategory(category) && IsImageFileName(filename)
    requires MediaRequest(root, category, filename, w).0.Ok?
    requires !MediaRequest(root, category, filename, w).0.value.cacheHit
    requires Strip(MediaRequest(root, category, filename, w).0.value.workbookIdentity) == MediaRequest(root, category, filename, w).0.value.workbookIdentity
    requires SeesWorkbook(w2.sources, w.sources.mode, MediaRequest(root, category, filename, w).0.value.workbookSource, w.workbook)
    requires '|' !in MediaRequest(root, category, filename, w).0.value.workbookSource
    requires w2.hash == w.hash
    ensures var (res, after) := MediaRequest(root, category, filename, w);
      MediaRequest(after, category, filename, w2) == (Ok(res.value.(cacheHit := true)), after)
  {
    var (res, after) := MediaRequest(root, category, filename, w);
    var x := FetchImage(w, category, ParseFilenameIndex(filename).value).value;
    PeekAgreesWithResolved(w, w2.sources, x.path);
    HitAfterWriteThrough(root, category, filename, x.png, x.identity, w.now);
    SourceOfComputedIdentity(w.sources.mode, x.path, RegularFile(w.workbook.stat), w.workbook.signature);
  }

  /**
   * A request adds no entry to the cache root except its own category directory, which is a
   * child of the cache root, so every file it writes stays inside the cache.
   */
  lemma RequestStaysInCache(root: CacheRoot, category: string, filename: string, w: World)
    ensures MediaRequest(root, category, filename, w).1.Keys <= root.Keys + {category}
    ensures MediaRequest(root, category, filename, w).1.Keys != root.Keys ==> IsCacheCategory(category)
  {
    var after := MediaRequest(root, category, filename, w).1;
    if IsCacheCategory(category) && ParseFilenameIndex(filename).Some?
       && !IsCacheHit(root, category, filename, PeekWorkbookIdentity(w.sources)) {
      var x := FetchImage(w, category, ParseFilenameIndex(filename).value);
      if x.Ok? {
        var out := WriteThrough(root, category, filename, x.value.png, x.value.identity, w.now);
        assert after == out.root;
        WriteThroughAddsOnlyCategory(root, category, filename, x.value.png, x.value.identity, w.now);
      } else {
        assert after == root;
      }
    } else {
      assert after == root;
    }
  }

  // ---------------------------------------------------------------------------
  // The catalog: one category per worksheet.

  /** `Category`: the worksheet's title, the URLs of its images, and what the catalog could not offer. */
  datatype Category = Category(
    name: string,
    images: seq<string>,
    imagesCount: nat,
    unsupportedObjectsDetected: bool,
    notes: Option<string>)

  /** An entry of `category_stats`. */
  datatype CategoryStat = CategoryStat(name: string, imagesCount: nat, unsupportedObjectsDetected: bool)

  /** `CatalogBuildResult` without its timings. */
  datatype CatalogBuildResult = CatalogBuildResult(
    categories: seq<Category>,
    workbookSource: string,
    workbookIdentity: string,
    totalImages: nat,
    categoryStats: seq<CategoryStat>)

  /** The URL of image `k` of a category directory. */
  function ImageUrl(dir: string, k: nat): string {
    "/api/media/" + dir + "/" + ImageFileName(k)
  }

  function Urls(dir: string, saved: seq<nat>): (urls: seq<string>)
    ensures |urls| == |saved| && forall j :: 0 <= j < |saved| ==> urls[j] == ImageUrl(dir, saved[j])
  {
    seq(|saved|, j requires 0 <= j < |saved| => ImageUrl(dir, saved[j]))
  }

  lemma UrlsSnoc(dir: string, saved: seq<nat>, k: nat)
    ensures Urls(dir, saved + [k]) == Urls(dir, saved) + [ImageUrl(dir, k)]
  {
  }

  /** The image loop of one worksheet so far: the cache, the 1-based positions saved, and the failures counted. */
  datatype ImagePass = ImagePass(root: CacheRoot, saved: seq<nat>, failures: nat)

  /** Save image number `idx`: a failed decode or a directory in the way counts a failure. */
  function SaveImage(p: ImagePass, dir: string, idx: nat, img: EmbeddedImage, now: int): (q: ImagePass)
    requires dir in p.root && p.root[dir].CategoryDir?
    ensures dir in q.root && q.root[dir].CategoryDir? && q.root.Keys == p.root.Keys
  {
    if img.png.None? then p.(failures := p.failures + 1)
    else
      match WriteFile(p.root, dir, ImageFileName(idx), CacheFile(Bytes(img.png.value), now))
      case Err(_) => p.(failures := p.failures + 1)
      case Ok(r) => ImagePass(r, p.saved + [idx], p.failures)
  }

  /** The image loop over a worksheet's images, numbered from 1 in order. */
  function SaveImages(root: CacheRoot, dir: string, images: seq<EmbeddedImage>, now: int): (p: ImagePass)
    requires dir in root && root[dir].CategoryDir?
    ensures dir in p.root && p.root[dir].CategoryDir? && p.root.Keys == root.Keys
    ensures |p.saved| + p.failures == |images|
    decreases |images|
  {
    if images == [] then ImagePass(root, [], 0)
    else SaveImage(SaveImages(root, dir, images[..|images| - 1], now), dir, |images|, images[|images| - 1], now)
  }

  /** The image loop over the first `i + 1` images is the loop over the first `i`, then image `i + 1`. */
  lemma SaveImagesStep(root: CacheRoot, dir: string, images: seq<EmbeddedImage>, i: nat, now: int)
    requires dir in root && root[dir].CategoryDir? && i < |images|
    ensures SaveImages(root, dir, images[..i + 1], now)
         == SaveImage(SaveImages(root, dir, images[..i], now), dir, i + 1, images[i], now)
  {
    assert images[..i + 1][..i] == images[..i];
  }

  /** `package_diagnostics_by_sheet.get(title, SheetDiagnostics())`. */
  function DiagnosticsFor(diags: map<string, SheetDiagnostics>, title: string): SheetDiagnostics {
    if title in diags then diags[title] else Fresh
  }

  /** The diagnostics after the sheet's cells were counted and its images saved. */
  function DiagnosticsAfter(d: SheetDiagnostics, rows: seq<seq<Cell>>, failures: nat): SheetDiagnostics {
    d.(unknownErrorCells := CountInRows(rows), extractionFailures := d.extractionFailures + failures)
  }

  function NoteOf(n: Option<Note>): Option<string> {
    if n.None? then None else Some(NoteText(n.value))
  }

  /** What the loop of `build_catalog_result` has gathered: the names used, each category's directory, the diagnostics, and its output. */
  datatype Progress = Progress(
    used: set<string>,
    dirs: seq<string>,
    diags: map<string, SheetDiagnostics>,
    categories: seq<Category>,
    stats: seq<CategoryStat>,
    total: nat)

  /** The category a worksheet yields: its title, the URLs of the images saved, and the diagnostics' verdict. */
  function CategoryFor(title: string, urls: seq<string>, d: SheetDiagnostics): Category {
    var n := |urls|;
    Category(title, urls, n, UnsupportedObjectsCount(n, d) > 0, NoteOf(BuildNotes(n, d)))
  }

  /** The category a worksheet yields once the images at positions `saved` have been saved into `dir`. */
  function CategoryOf(title: string, dir: string, d: SheetDiagnostics, saved: seq<nat>): Category {
    CategoryFor(title, Urls(dir, saved), d)
  }

  function StatOf(c: Category): CategoryStat {
    CategoryStat(c.name, c.imagesCount, c.unsupportedObjectsDetected)
  }

  /** The loop's state once a worksheet's category, in directory `dir`, is appended. */
  function Appended(acc: Progress, title: string, dir: string, d: SheetDiagnostics, urls: seq<string>): Progress {
    var cat := CategoryFor(title, urls, d);
    Progress(
      acc.used + {dir},
      acc.dirs + [dir],
      if title in acc.diags then acc.diags[title := d] else acc.diags,
      acc.categories + [cat],
      acc.stats + [StatOf(cat)],
      acc.total + cat.imagesCount)
  }

  /**
   * One iteration of the worksheet loop: skip a default sheet; otherwise name its directory,
   * create it (failing when a plain file has the name), save its images, and append its category.
   */
  function CatalogSheet(root: CacheRoot, acc: Progress, ws: Worksheet, now: int): Result<(CacheRoot, Progress), WriteFailure> {
    if ShouldIgnoreSheet(ws.title) then Ok((root, acc))
    else
      var dir := UniqueDirName(SafeSheetDirName(ws.title), acc.used);
      match MakeDir(root, dir)
      case Err(f) => Err(f)
      case Ok(r) =>
        var pass := SaveImages(r, dir, ws.images, now);
        var d := DiagnosticsAfter(DiagnosticsFor(acc.diags, ws.title), ws.rows, pass.failures);
        Ok((pass.root, Appended(acc, ws.title, dir, d, Urls(dir, pass.saved))))
  }

  /** What one iteration of the loop does to the loop's state, without the cache. */
  lemma CatalogSheetShape(root: CacheRoot, acc: Progress, ws: Worksheet, now: int)
    requires CatalogSheet(root, acc, ws, now).Ok?
    ensures var next := CatalogSheet(root, acc, ws, now).value.1;
      if ShouldIgnoreSheet(ws.title) then CatalogSheet(root, acc, ws, now).value == (root, acc)
      else
        var dir := UniqueDirName(SafeSheetDirName(ws.title), acc.used);
        var r1 := MakeDir(root, dir).value;
        var pass := SaveImages(r1, dir, ws.images, now);
        var cat := CategoryOf(ws.title, dir, DiagnosticsAfter(DiagnosticsFor(acc.diags, ws.title), ws.rows, pass.failures), pass.saved);
        && MakeDir(root, dir).Ok?
        && CatalogSheet(root, acc, ws, now).value.0 == pass.root
        && next.used == acc.used + {dir}
        && next.dirs == acc.dirs + [dir]
        && next.categories == acc.categories + [cat]
        && next.stats == acc.stats + [StatOf(cat)]
        && next.total == acc.total + cat.imagesCount
  {
  }

  /** The cache and the loop's state after the worksheets, and the directory creation that failed, if one did. */
  datatype PassOutcome = PassOutcome(root: CacheRoot, progress: Progress, failure: Option<WriteFailure>)

  function CatalogSheets(root: CacheRoot, acc: Progress, sheets: seq<Worksheet>, now: int): PassOutcome
    decreases |sheets|
  {
    if sheets == [] then PassOutcome(root, acc, None)
    else
      match CatalogSheet(root, acc, sheets[0], now)
      case Err(f) => PassOutcome(root, acc, Some(f))
      case Ok((r, next)) => CatalogSheets(r, next, sheets[1..], now)
  }

  /** The worksheet loop adds no entry to the cache root except category directories that are children of it. */
  lemma {:induction false} CatalogSheetsStayInCache(root: CacheRoot, acc: Progress, sheets: seq<Worksheet>, now: int)
    ensures forall n :: n in CatalogSheets(root, acc, sheets, now).root && n !in root ==> IsCacheCategory(n)
    decreases |sheets|
  {
    if sheets != [] {
      match CatalogSheet(root, acc, sheets[0], now)
      case Err(_) =>
      case Ok((r, next)) =>
        CatalogSheetShape(root, acc, sheets[0], now);
        CatalogSheetsStayInCache(r, next, sheets[1..], now);
    }
  }

  /** `_read_last_built_workbook_identity`: the remembered identity when set, else the marker's. */
  function LastBuiltIdentity(field: Option<string>, root: CacheRoot): (r: Option<string>)
    ensures r.Some? && r != field ==> r == MarkerIdentity(root)
    ensures field.Some? && field.value != "" ==> r == field
    ensures !(field.Some? && field.value != "") ==> r == MarkerIdentity(root)
  {
    if field.Some? && field.value != "" then field else MarkerIdentity(root)
  }

  /** The response of a build, the cache afterwards, and the service's remembered identity afterwards. */
  datatype BuildOutcome = BuildOutcome(result: Result<CatalogBuildResult, ServiceError>, root: CacheRoot, lastBuilt: Option<string>)

  /** The cache once it is brought up to date with `identity`: invalidated when the last built identity differs. */
  function RefreshedRoot(root: CacheRoot, lastBuilt: Option<string>, identity: string): CacheRoot {
    if IsStale(LastBuiltIdentity(lastBuilt, root), identity) then InvalidatedRoot(root) else root
  }

  const StartProgress: Progress := Progress({}, [], map[], [], [], 0)

  /**
   * `build_catalog_result`: resolve and identify the workbook, inspect its package, invalidate
   * a stale cache, remember the identity, then run the worksheet loop.
   */
  function BuildCatalog(root: CacheRoot, lastBuilt: Option<string>, w: World): BuildOutcome {
    match ResolveWorkbookPath(w.sources, w.graphClientConfigured)
    case Err(e) => BuildOutcome(Err(SourceUnavailable(e)), root, lastBuilt)
    case Ok(path) =>
      var identity := ResolvedIdentity(w, path);
      if w.workbook.package.None? then BuildOutcome(Err(BadZipFile), root, lastBuilt)
      else
        match PackageAnalysis(w.workbook.package.value)
        case Err(e) => BuildOutcome(Err(MalformedPackage(e)), root, lastBuilt)
        case Ok((diags, _)) =>
          var refreshed := RefreshedRoot(root, lastBuilt, identity);
          match WriteMarker(refreshed, identity, w.now)
          case Err(f) => BuildOutcome(Err(CacheWriteFailed(f)), refreshed, Some(identity))
          case Ok(marked) =>
            if w.workbook.worksheets.None? then BuildOutcome(Err(WorkbookUnreadable), marked, Some(identity))
            else
              var out := CatalogSheets(marked, StartProgress.(diags := diags), w.workbook.worksheets.value, w.now);
              if out.failure.Some? then BuildOutcome(Err(CacheWriteFailed(out.failure.value)), out.root, Some(identity))
              else
                var acc := out.progress;
                BuildOutcome(Ok(CatalogBuildResult(acc.categories, path, identity, acc.total, acc.stats)), out.root, Some(identity))
  }

  /**
   * A build adds no entry to the cache root except the identity marker and category
   * directories that are children of the cache root; invalidation only removes entries.
   */
  lemma BuildStaysInCache(root: CacheRoot, lastBuilt: Option<string>, w: World)
    ensures forall n :: n in BuildCatalog(root, lastBuilt, w).root && n !in root ==>
      n == IdentityMarker || IsCacheCategory(n)
  {
    match ResolveWorkbookPath(w.sources, w.graphClientConfigured)
    case Err(_) =>
    case Ok(path) =>
      var identity := ResolvedIdentity(w, path);
      if w.workbook.package.Some? && PackageAnalysis(w.workbook.package.value).Ok? {
        var diags := PackageAnalysis(w.workbook.package.value).value.0;
        var refreshed := RefreshedRoot(root, lastBuilt, identity);
        assert refreshed.Keys <= root.Keys;
        if WriteMarker(refreshed, identity, w.now).Ok? && w.workbook.worksheets.Some? {
          var marked := WriteMarker(refreshed, identity, w.now).value;
          CatalogSheetsStayInCache(marked, StartProgress.(diags := diags), w.workbook.worksheets.value, w.now);
        }
      }
  }

  // ---------------------------------------------------------------------------
  // The image loop.

  /**
   * What the image loop has written: the saved positions increase, each names an image of the
   * worksheet that decoded, and the cache holds that image's PNG under `img_<position>.png`.
   */
  predicate SavedFrom(p: ImagePass, dir: string, images: seq<EmbeddedImage>, now: int) {
    && (forall j1, j2 :: 0 <= j1 < j2 < |p.saved| ==> p.saved[j1] < p.saved[j2])
    && (forall j :: 0 <= j < |p.saved| ==>
          1 <= p.saved[j] <= |images| && images[p.saved[j] - 1].png.Some?
          && FileAt(p.root, dir, ImageFileName(p.saved[j])) == Some(CacheFile(Bytes(images[p.saved[j] - 1].png.value), now)))
  }

  lemma ImageFileNameInjective(k1: nat, k2: nat)
    requires ImageFileName(k1) == ImageFileName(k2)
    ensures k1 == k2
  {
    ParseImageFileName(k1);
    ParseImageFileName(k2);
  }

  /** The image loop writes only into `dir`, and what it reports as saved is in the cache. */
  lemma {:induction false} SaveImagesSavedFrom(root: CacheRoot, dir: string, images: seq<EmbeddedImage>, now: int)
    requires dir in root && root[dir].CategoryDir?
    ensures SavedFrom(SaveImages(root, dir, images, now), dir, images, now)
    ensures forall n :: n in root && n != dir ==> SaveImages(root, dir, images, now).root[n] == root[n]
    decreases |images|
  {
    if images != [] {
      var init := images[..|images| - 1];
      SaveImagesSavedFrom(root, dir, init, now);
      var p := SaveImages(root, dir, init, now);
      SavedFromExtend(p, dir, images, now);
      SaveImageSavedFrom(p, dir, images, now);
    }
  }

  /** What was saved from the first images is saved from the whole list, at positions before the last. */
  lemma SavedFromExtend(p: ImagePass, dir: string, images: seq<EmbeddedImage>, now: int)
    requires images != [] && SavedFrom(p, dir, images[..|images| - 1], now)
    ensures SavedFrom(p, dir, images, now)
    ensures forall j :: 0 <= j < |p.saved| ==> p.saved[j] < |images|
  {
    var init := images[..|images| - 1];
    assert forall j :: 0 <= j < |p.saved| ==> images[p.saved[j] - 1] == init[p.saved[j] - 1];
  }

  /** Saving the last image keeps what was saved before it and writes only into `dir`. */
  lemma SaveImageSavedFrom(p: ImagePass, dir: string, images: seq<EmbeddedImage>, now: int)
    requires images != [] && dir in p.root && p.root[dir].CategoryDir?
    requires SavedFrom(p, dir, images, now) && forall j :: 0 <= j < |p.saved| ==> p.saved[j] < |images|
    ensures SavedFrom(SaveImage(p, dir, |images|, images[|images| - 1], now), dir, images, now)
    ensures forall n :: n in p.root && n != dir ==> SaveImage(p, dir, |images|, images[|images| - 1], now).root[n] == p.root[n]
  {
    var idx := |images|;
    var img := images[idx - 1];
    if img.png.Some? {
      var f := CacheFile(Bytes(img.png.value), now);
      var w := WriteFile(p.root, dir, ImageFileName(idx), f);
      if w.Ok? {
        var q := ImagePass(w.value, p.saved + [idx], p.failures);
        assert SaveImage(p, dir, idx, img, now) == q;
        forall j | 0 <= j < |p.saved|
          ensures FileAt(q.root, dir, ImageFileName(p.saved[j])) == FileAt(p.root, dir, ImageFileName(p.saved[j]))
        {
          if ImageFileName(p.saved[j]) == ImageFileName(idx) {
            ImageFileNameInjective(p.saved[j], idx);
          }
        }
        assert forall j :: 0 <= j < |q.saved| ==> q.saved[j] == if j < |p.saved| then p.saved[j] else idx;
      }
    }
  }

  /** The number of images that do not decode. */
  function Undecodable(images: seq<EmbeddedImage>): nat
    decreases |images|
  {
    if images == [] then 0
    else Undecodable(images[..|images| - 1]) + (if images[|images| - 1].png.None? then 1 else 0)
  }

  /** A category directory holding no sub-directory. */
  predicate PlainDir(root: CacheRoot, dir: string)
    requires dir in root && root[dir].CategoryDir?
  {
    forall n :: n in root[dir].entries ==> root[dir].entries[n].FileEntry?
  }

  /** Among the positions `1..n`, `saved` holds exactly those of images that decode. */
  predicate SavedExactlyDecodable(saved: seq<nat>, images: seq<EmbeddedImage>, n: nat)
    requires n <= |images|
  {
    forall k :: 1 <= k <= n ==> (k in saved <==> images[k - 1].png.Some?)
  }

  /**
   * With no sub-directory in the way, every image that decodes is saved and every other one is
   * counted as a failure: the failures are exactly the undecodable images.
   */
  lemma {:induction false} SaveImagesUnobstructed(root: CacheRoot, dir: string, images: seq<EmbeddedImage>, now: int)
    requires dir in root && root[dir].CategoryDir? && PlainDir(root, dir)
    ensures var p := SaveImages(root, dir, images, now);
      PlainDir(p.root, dir)
      && p.failures == Undecodable(images)
      && SavedExactlyDecodable(p.saved, images, |images|)
    decreases |images|
  {
    if images != [] {
      var init := images[..|images| - 1];
      SaveImagesUnobstructed(root, dir, init, now);
      SaveImagesSavedFrom(root, dir, init, now);
      var p := SaveImages(root, dir, init, now);
      SavedFromExtend(p, dir, images, now);
      SavedExactlyExtend(p.saved, init, images);
      SaveImageUnobstructed(p, dir, images, now);
    }
  }

  lemma SavedExactlyExtend(saved: seq<nat>, init: seq<EmbeddedImage>, images: seq<EmbeddedImage>)
    requires images != [] && init == images[..|images| - 1]
    requires SavedExactlyDecodable(saved, init, |init|)
    ensures SavedExactlyDecodable(saved, images, |images| - 1)
  {
    assert forall i :: 0 <= i < |init| ==> images[i] == init[i];
  }

  /** With no sub-directory in the way, the last image is saved exactly when it decodes. */
  lemma SaveImageUnobstructed(p: ImagePass, dir: string, images: seq<EmbeddedImage>, now: int)
    requires images != [] && dir in p.root && p.root[dir].CategoryDir? && PlainDir(p.root, dir)
    requires forall j :: 0 <= j < |p.saved| ==> p.saved[j] < |images|
    requires p.failures == Undecodable(images[..|images| - 1])
    requires SavedExactlyDecodable(p.saved, images, |images| - 1)
    ensures var q := SaveImage(p, dir, |images|, images[|images| - 1], now);
      PlainDir(q.root, dir)
      && q.failures == Undecodable(images)
      && SavedExactlyDecodable(q.saved, images, |images|)
  {
    var idx := |images|;
    var img := images[idx - 1];
    var q := SaveImage(p, dir, idx, img, now);
    assert idx !in p.saved;
    if img.png.Some? {
      var f := CacheFile(Bytes(img.png.value), now);
      WriteFileKeepsPlainDir(p.root, dir, ImageFileName(idx), f);
      assert q == ImagePass(WriteFile(p.root, dir, ImageFileName(idx), f).value, p.saved + [idx], p.failures);
      SavedExactlyStep(p.saved, p.saved + [idx], images);
    } else {
      assert q == p.(failures := p.failures + 1);
      SavedExactlyStep(p.saved, p.saved, images);
    }
  }

  /** Position `|images|` joins the saved positions exactly when its image decodes. */
  lemma SavedExactlyStep(saved: seq<nat>, next: seq<nat>, images: seq<EmbeddedImage>)
    requires images != [] && |images| !in saved && SavedExactlyDecodable(saved, images, |images| - 1)
    requires next == if images[|images| - 1].png.Some? then saved + [|images|] else saved
    ensures SavedExactlyDecodable(next, images, |images|)
  {
    forall k | 1 <= k <= |images|
      ensures k in next <==> images[k - 1].png.Some?
    {
      assert k in next <==> k in saved || (k == |images| && images[|images| - 1].png.Some?);
    }
  }

  /** A file written into a directory with no sub-directory is written, and leaves none. */
  lemma WriteFileKeepsPlainDir(root: CacheRoot, dir: string, name: string, f: CacheFile)
    requires dir in root && root[dir].CategoryDir? && PlainDir(root, dir)
    ensures WriteFile(root, dir, name, f).Ok?
    ensures PlainDir(WriteFile(root, dir, name, f).value, dir)
  {
  }

  // ---------------------------------------------------------------------------
  // The worksheet loop.

  function SumCounts(cats: seq<Category>): nat
    decreases |cats|
  {
    if cats == [] then 0 else SumCounts(cats[..|cats| - 1]) + cats[|cats| - 1].imagesCount
  }

  /** The loop's output agrees with itself: one stat and one directory per category, counts that count the URLs, and the running total. */
  predicate Consistent(acc: Progress) {
    && |acc.stats| == |acc.categories| == |acc.dirs|
    && (forall i :: 0 <= i < |acc.categories| ==>
          acc.stats[i] == StatOf(acc.categories[i]) && acc.categories[i].imagesCount == |acc.categories[i].images|)
    && acc.total == SumCounts(acc.categories)
  }

  /** Appending a category whose count counts its URLs, with its stat and its directory, keeps the output consistent. */
  lemma ConsistentAppend(acc: Progress, next: Progress, dir: string, cat: Category)
    requires Consistent(acc) && cat.imagesCount == |cat.images|
    requires next.dirs == acc.dirs + [dir] && next.categories == acc.categories + [cat]
    requires next.stats == acc.stats + [StatOf(cat)] && next.total == acc.total + cat.imagesCount
    ensures Consistent(next)
  {
    assert next.categories[..|next.categories| - 1] == acc.categories;
  }

  /** The worksheet loop keeps its output consistent and only appends to it. */
  lemma {:induction false} CatalogSheetsConsistent(root: CacheRoot, acc: Progress, sheets: seq<Worksheet>, now: int)
    requires Consistent(acc)
    ensures var out := CatalogSheets(root, acc, sheets, now);
      Consistent(out.progress) && acc.categories <= out.progress.categories && acc.dirs <= out.progress.dirs
    decreases |sheets|
  {
    if sheets != [] && CatalogSheet(root, acc, sheets[0], now).Ok? {
      var (r, next) := CatalogSheet(root, acc, sheets[0], now).value;
      CatalogSheetConsistent(root, acc, sheets[0], now);
      CatalogSheetsConsistent(r, next, sheets[1..], now);
    }
  }

  /** One worksheet keeps the output consistent and only appends to it. */
  lemma CatalogSheetConsistent(root: CacheRoot, acc: Progress, ws: Worksheet, now: int)
    requires Consistent(acc) && CatalogSheet(root, acc, ws, now).Ok?
    ensures var next := CatalogSheet(root, acc, ws, now).value.1;
      Consistent(next) && acc.categories <= next.categories && acc.dirs <= next.dirs
  {
    var next := CatalogSheet(root, acc, ws, now).value.1;
    CatalogSheetShape(root, acc, ws, now);
    if !ShouldIgnoreSheet(ws.title) {
      var cat := next.categories[|acc.categories|];
      ConsistentAppend(acc, next, next.dirs[|acc.dirs|], cat);
    }
  }

  /** The titles of the worksheets the catalog keeps, in order. */
  function KeptTitles(sheets: seq<Worksheet>): seq<string>
    decreases |sheets|
  {
    if sheets == [] then []
    else (if ShouldIgnoreSheet(sheets[0].title) then [] else [sheets[0].title]) + KeptTitles(sheets[1..])
  }

  /** The categories' names, in order. */
  function Names(cats: seq<Category>): (names: seq<string>)
  {
    seq(|cats|, i requires 0 <= i < |cats| => cats[i].name)
  }

  lemma NamesAppend(cats: seq<Category>, cat: Category)
    ensures Names(cats + [cat]) == Names(cats) + [cat.name]
  {
  }

  /** A completed loop emits one category per kept worksheet, in order, named by the worksheet's own title. */
  lemma {:induction false} CatalogSheetsNames(root: CacheRoot, acc: Progress, sheets: seq<Worksheet>, now: int)
    ensures var out := CatalogSheets(root, acc, sheets, now);
      out.failure.None? ==> Names(out.progress.categories) == Names(acc.categories) + KeptTitles(sheets)
    decreases |sheets|
  {
    if sheets == [] {
      assert Names(acc.categories) + KeptTitles(sheets) == Names(acc.categories);
    } else if CatalogSheet(root, acc, sheets[0], now).Ok? {
      var (r, next) := CatalogSheet(root, acc, sheets[0], now).value;
      CatalogSheetNames(root, acc, sheets[0], now);
      CatalogSheetsNames(r, next, sheets[1..], now);
      var head: seq<string> := if ShouldIgnoreSheet(sheets[0].title) then [] else [sheets[0].title];
      assert KeptTitles(sheets) == head + KeptTitles(sheets[1..]);
      ConcatAssociative(Names(acc.categories), head, KeptTitles(sheets[1..]));
    }
  }

  /** One worksheet appends its title to the names when it is kept, and nothing otherwise. */
  lemma CatalogSheetNames(root: CacheRoot, acc: Progress, ws: Worksheet, now: int)
    requires CatalogSheet(root, acc, ws, now).Ok?
    ensures Names(CatalogSheet(root, acc, ws, now).value.1.categories)
         == Names(acc.categories) + (if ShouldIgnoreSheet(ws.title) then [] else [ws.title])
  {
    var next := CatalogSheet(root, acc, ws, now).value.1;
    CatalogSheetShape(root, acc, ws, now);
    if !ShouldIgnoreSheet(ws.title) {
      var cat := next.categories[|acc.categories|];
      assert next.categories == acc.categories + [cat] && cat.name == ws.title;
      NamesAppend(acc.categories, cat);
    }
  }

  /** The image index a URL of directory `dir` names, as `get_media_image` reads it back. */
  function UrlIndex(u: string, dir: string): (r: Option<nat>)
    ensures r.Some? ==> "/api/media/" + dir + "/" <= u
  {
    var prefix := "/api/media/" + dir + "/";
    if prefix <= u then ParseFilenameIndex(u[|prefix|..]) else None
  }

  /** The URL of image `k` reads back as image `k`. */
  lemma UrlIndexOfImageUrl(dir: string, k: nat)
    ensures UrlIndex(ImageUrl(dir, k), dir) == Some(k)
  {
    var prefix := "/api/media/" + dir + "/";
    assert ImageUrl(dir, k)[|prefix|..] == ImageFileName(k);
    ParseImageFileName(k);
  }

  /** Every URL is the URL, in directory `dir`, of an image of `images` that decodes. */
  predicate UrlsWithin(urls: seq<string>, dir: string, images: seq<EmbeddedImage>) {
    forall j :: 0 <= j < |urls| ==>
      var k := UrlIndex(urls[j], dir);
      k.Some? && 1 <= k.value <= |images| && images[k.value - 1].png.Some? && urls[j] == ImageUrl(dir, k.value)
  }

  /** The image index URL `j` names. */
  lemma UrlWithin(urls: seq<string>, dir: string, images: seq<EmbeddedImage>, j: nat) returns (k: nat)
    requires UrlsWithin(urls, dir, images) && j < |urls|
    ensures UrlIndex(urls[j], dir) == Some(k)
    ensures 1 <= k <= |images| && images[k - 1].png.Some? && urls[j] == ImageUrl(dir, k)
  {
    k := UrlIndex(urls[j], dir).value;
  }

  lemma UrlsOfSaved(p: ImagePass, dir: string, images: seq<EmbeddedImage>, now: int)
    requires SavedFrom(p, dir, images, now)
    ensures UrlsWithin(Urls(dir, p.saved), dir, images)
  {
    forall j | 0 <= j < |p.saved| {
      UrlIndexOfImageUrl(dir, p.saved[j]);
    }
  }

  /** A category in directory `dir` is the one worksheet `ws` yields: it bears the title and its URLs name the worksheet's decodable images. */
  predicate SheetYields(cat: Category, dir: string, ws: Worksheet) {
    cat.name == ws.title && UrlsWithin(cat.images, dir, ws.images)
  }

  /**
   * Every category from position `from` on comes from a worksheet `p` to which the naming pass
   * (whose answers are `named`) gave that category's directory.
   */
  ghost predicate FromSheets(cats: seq<Category>, dirs: seq<string>, from: nat, sheets: seq<Worksheet>, named: seq<Option<string>>)
    requires |dirs| == |cats|
  {
    forall c :: from <= c < |cats| ==> HasSource(cats[c], dirs[c], sheets, named)
  }

  /** Some worksheet was given directory `dir` and yields `cat`. */
  ghost predicate HasSource(cat: Category, dir: string, sheets: seq<Worksheet>, named: seq<Option<string>>) {
    exists p: nat :: FromSheet(cat, dir, sheets, named, p)
  }

  /** Worksheet `p` was given directory `dir` and yields `cat`. */
  predicate FromSheet(cat: Category, dir: string, sheets: seq<Worksheet>, named: seq<Option<string>>, p: nat) {
    p < |sheets| && p < |named| && named[p] == Some(dir) && SheetYields(cat, dir, sheets[p])
  }

  /** One unfolding of the naming pass over the worksheets' titles. */
  lemma WorksheetDirsHead(sheets: seq<Worksheet>, used: set<string>)
    requires sheets != []
    ensures var dirs := AssignedDirs(Titles(sheets), used);
      var name := UniqueDirName(SafeSheetDirName(sheets[0].title), used);
      if ShouldIgnoreSheet(sheets[0].title)
      then dirs[0] == None && dirs[1..] == AssignedDirs(Titles(sheets[1..]), used)
      else dirs[0] == Some(name) && dirs[1..] == AssignedDirs(Titles(sheets[1..]), used + {name})
  {
    assert Titles(sheets)[0] == sheets[0].title && Titles(sheets)[1..] == Titles(sheets[1..]);
  }

  /** Provenance in the later worksheets is provenance in the whole list, one position further on. */
  lemma FromSheetsShift(cats: seq<Category>, dirs: seq<string>, from: nat, sheets: seq<Worksheet>, named: seq<Option<string>>)
    requires sheets != [] && |named| == |sheets| && |dirs| == |cats|
    requires FromSheets(cats, dirs, from, sheets[1..], named[1..])
    ensures FromSheets(cats, dirs, from, sheets, named)
  {
    forall c | from <= c < |cats|
      ensures HasSource(cats[c], dirs[c], sheets, named)
    {
      var p: nat :| FromSheet(cats[c], dirs[c], sheets[1..], named[1..], p);
      assert sheets[p + 1] == sheets[1..][p] && named[p + 1] == named[1..][p];
      assert FromSheet(cats[c], dirs[c], sheets, named, p + 1);
    }
  }

  /** A first worksheet that yields the first category, followed by provenance for the rest. */
  lemma FromSheetsCons(cats: seq<Category>, dirs: seq<string>, from: nat, sheets: seq<Worksheet>, named: seq<Option<string>>)
    requires sheets != [] && |named| == |sheets| && |dirs| == |cats| && from < |cats|
    requires FromSheets(cats, dirs, from + 1, sheets[1..], named[1..])
    requires named[0] == Some(dirs[from]) && SheetYields(cats[from], dirs[from], sheets[0])
    ensures FromSheets(cats, dirs, from, sheets, named)
  {
    FromSheetsShift(cats, dirs, from + 1, sheets, named);
    assert FromSheet(cats[from], dirs[from], sheets, named, 0);
  }

  /** The category a kept worksheet yields: its title, its directory, and URLs of its own decodable images. */
  lemma CatalogSheetYields(root: CacheRoot, acc: Progress, ws: Worksheet, now: int)
    requires CatalogSheet(root, acc, ws, now).Ok? && !ShouldIgnoreSheet(ws.title)
    ensures var next := CatalogSheet(root, acc, ws, now).value.1;
      var dir := UniqueDirName(SafeSheetDirName(ws.title), acc.used);
      && |next.categories| == |acc.categories| + 1
      && next.categories[..|acc.categories|] == acc.categories
      && next.categories[|acc.categories|].name == ws.title
      && next.dirs == acc.dirs + [dir]
      && next.used == acc.used + {dir}
      && UrlsWithin(next.categories[|acc.categories|].images, dir, ws.images)
  {
    CatalogSheetShape(root, acc, ws, now);
    var dir := UniqueDirName(SafeSheetDirName(ws.title), acc.used);
    var r1 := MakeDir(root, dir).value;
    SaveImagesSavedFrom(r1, dir, ws.images, now);
    UrlsOfSaved(SaveImages(r1, dir, ws.images, now), dir, ws.images, now);
  }

  /** Every category a completed loop emits comes from a worksheet, through the same naming pass `get_media_image` repeats. */
  lemma {:induction false} CatalogSheetsProvenance(root: CacheRoot, acc: Progress, sheets: seq<Worksheet>, now: int)
    requires Consistent(acc)
    ensures var out := CatalogSheets(root, acc, sheets, now);
      out.failure.None? ==>
        |out.progress.dirs| == |out.progress.categories|
        && FromSheets(out.progress.categories, out.progress.dirs, |acc.categories|, sheets, AssignedDirs(Titles(sheets), acc.used))
    decreases |sheets|
  {
    CatalogSheetsConsistent(root, acc, sheets, now);
    if sheets != [] && CatalogSheet(root, acc, sheets[0], now).Ok? {
      var (r, next) := CatalogSheet(root, acc, sheets[0], now).value;
      CatalogSheetShape(root, acc, sheets[0], now);
      var out := CatalogSheets(r, next, sheets[1..], now);
      assert out == CatalogSheets(root, acc, sheets, now);
      var named := AssignedDirs(Titles(sheets), acc.used);
      WorksheetDirsHead(sheets, acc.used);
      CatalogSheetConsistent(root, acc, sheets[0], now);
      CatalogSheetsConsistent(r, next, sheets[1..], now);
      CatalogSheetsProvenance(r, next, sheets[1..], now);
      if out.failure.None? {
        var cats, dirs := out.progress.categories, out.progress.dirs;
        if ShouldIgnoreSheet(sheets[0].title) {
          FromSheetsShift(cats, dirs, |acc.categories|, sheets, named);
        } else {
          var c0 := |acc.categories|;
          CatalogSheetYields(root, acc, sheets[0], now);
          assert cats[c0] == next.categories[c0] && dirs[c0] == next.dirs[c0];
          FromSheetsCons(cats, dirs, c0, sheets, named);
        }
      }
    }
  }

  // ---------------------------------------------------------------------------
  // What a successful build promises.

  /** One worksheet never changes what the identity marker records. */
  lemma CatalogSheetKeepsMarker(root: CacheRoot, acc: Progress, ws: Worksheet, now: int)
    requires CatalogSheet(root, acc, ws, now).Ok?
    ensures MarkerIdentity(CatalogSheet(root, acc, ws, now).value.0) == MarkerIdentity(root)
  {
    CatalogSheetShape(root, acc, ws, now);
    if !ShouldIgnoreSheet(ws.title) {
      SheetDirKeepsMarker(root, UniqueDirName(SafeSheetDirName(ws.title), acc.used), ws.images, now);
    }
  }

  /** Creating a worksheet's directory and saving its images leave the marker as it was. */
  lemma SheetDirKeepsMarker(root: CacheRoot, dir: string, images: seq<EmbeddedImage>, now: int)
    requires MakeDir(root, dir).Ok?
    ensures MarkerIdentity(SaveImages(MakeDir(root, dir).value, dir, images, now).root) == MarkerIdentity(root)
  {
    var r1 := MakeDir(root, dir).value;
    SaveImagesSavedFrom(r1, dir, images, now);
    var r2 := SaveImages(r1, dir, images, now).root;
    if dir != IdentityMarker && IdentityMarker in root {
      assert r2[IdentityMarker] == r1[IdentityMarker] == root[IdentityMarker];
    }
  }

  lemma {:induction false} CatalogSheetsKeepMarker(root: CacheRoot, acc: Progress, sheets: seq<Worksheet>, now: int)
    ensures MarkerIdentity(CatalogSheets(root, acc, sheets, now).root) == MarkerIdentity(root)
    decreases |sheets|
  {
    if sheets != [] && CatalogSheet(root, acc, sheets[0], now).Ok? {
      var (r, next) := CatalogSheet(root, acc, sheets[0], now).value;
      CatalogSheetKeepsMarker(root, acc, sheets[0], now);
      CatalogSheetsKeepMarker(r, next, sheets[1..], now);
    }
  }

  /**
   * A successful build answers for the workbook it resolved: one category per kept worksheet,
   * in order and named by its title; a stat per category that mirrors it; counts that count the
   * URLs and a total that sums them. The service remembers the identity, and the marker left in
   * the cache gives it back (stripped) to a service that starts afresh.
   */
  lemma BuildProperties(root: CacheRoot, lastBuilt: Option<string>, w: World)
    requires BuildCatalog(root, lastBuilt, w).result.Ok?
    ensures var out := BuildCatalog(root, lastBuilt, w);
      var res := out.result.value;
      && w.workbook.worksheets.Some?
      && ResolveWorkbookPath(w.sources, w.graphClientConfigured) == Ok(res.workbookSource)
      && res.workbookIdentity == ResolvedIdentity(w, res.workbookSource)
      && Names(res.categories) == KeptTitles(w.workbook.worksheets.value)
      && |res.categoryStats| == |res.categories|
      && (forall i :: 0 <= i < |res.categories| ==>
            res.categoryStats[i] == StatOf(res.categories[i]) && res.categories[i].imagesCount == |res.categories[i].images|)
      && res.totalImages == SumCounts(res.categories)
      && out.lastBuilt == Some(res.workbookIdentity)
      && LastBuiltIdentity(None, out.root) == Some(Strip(res.workbookIdentity))
  {
    var path := ResolveWorkbookPath(w.sources, w.graphClientConfigured).value;
    var identity := ResolvedIdentity(w, path);
    var (diags, _) := PackageAnalysis(w.workbook.package.value).value;
    var refreshed := RefreshedRoot(root, lastBuilt, identity);
    var marked := WriteMarker(refreshed, identity, w.now).value;
    var sheets := w.workbook.worksheets.value;
    var start := StartProgress.(diags := diags);
    CatalogSheetsConsistent(marked, start, sheets, w.now);
    CatalogSheetsNames(marked, start, sheets, w.now);
    CatalogSheetsKeepMarker(marked, start, sheets, w.now);
    MarkerReadsBack(refreshed, identity, w.now);
    StripOfVisible(identity, |path|);
  }

  /**
   * `url` is the URL of image `k` in category directory `d`, and `get_media_image` accepts that
   * pair and extracts the image from the workbook at `path` under `identity`.
   */
  predicate ServedAs(w: World, url: string, d: string, k: nat, path: string, identity: string) {
    && url == ImageUrl(d, k)
    && IsCacheCategory(d)
    && ParseFilenameIndex(ImageFileName(k)) == Some(k)
    && FetchImage(w, d, k).Ok?
    && FetchImage(w, d, k).value.path == path
    && FetchImage(w, d, k).value.identity == identity
  }

  /**
   * The image `k` a URL of category `c` names: the worksheet `p` to which the naming pass gave
   * the category's directory is the one `get_media_image` finds for that directory, and image
   * `k` of it decodes.
   */
  lemma UrlServed(w: World, path: string, cats: seq<Category>, dirs: seq<string>, c: nat, j: nat)
    requires ResolveWorkbookPath(w.sources, w.graphClientConfigured) == Ok(path)
    requires w.workbook.worksheets.Some? && |dirs| == |cats|
    requires FromSheets(cats, dirs, 0, w.workbook.worksheets.value, AssignedDirs(Titles(w.workbook.worksheets.value), {}))
    requires c < |cats| && j < |cats[c].images|
    ensures exists d: string, k: nat :: ServedAs(w, cats[c].images[j], d, k, path, ResolvedIdentity(w, path))
  {
    var sheets := w.workbook.worksheets.value;
    var named := AssignedDirs(Titles(sheets), {});
    assert HasSource(cats[c], dirs[c], sheets, named);
    var p: nat :| FromSheet(cats[c], dirs[c], sheets, named, p);
    SheetUrlServed(w, path, cats[c], dirs[c], p, j);
  }

  /** `UrlServed` for the worksheet `p` a category came from. */
  lemma SheetUrlServed(w: World, path: string, cat: Category, d: string, p: nat, j: nat)
    requires ResolveWorkbookPath(w.sources, w.graphClientConfigured) == Ok(path)
    requires w.workbook.worksheets.Some?
    requires FromSheet(cat, d, w.workbook.worksheets.value, AssignedDirs(Titles(w.workbook.worksheets.value), {}), p)
    requires j < |cat.images|
    ensures exists k: nat :: ServedAs(w, cat.images[j], d, k, path, ResolvedIdentity(w, path))
  {
    var sheets := w.workbook.worksheets.value;
    var titles := Titles(sheets);
    var images := sheets[p].images;
    var k := UrlWithin(cat.images, d, images, j);
    assert IsCacheCategory(d) && FirstIndexOf(AssignedDirs(titles, {}), d) == Some(p) by {
      AssignedDirsDistinct(titles, {});
      SheetForDirIsUnique(titles, d, p);
    }
    ParseImageFileName(k);
    FetchFromSheet(w, path, d, p, k);
    assert ServedAs(w, cat.images[j], d, k, path, ResolvedIdentity(w, path));
  }

  /** `get_media_image` extracts image `k` of the worksheet the category lookup finds when the image decodes. */
  lemma FetchFromSheet(w: World, path: string, d: string, p: nat, k: nat)
    requires ResolveWorkbookPath(w.sources, w.graphClientConfigured) == Ok(path)
    requires w.workbook.worksheets.Some? && p < |w.workbook.worksheets.value|
    requires FirstIndexOf(AssignedDirs(Titles(w.workbook.worksheets.value), {}), d) == Some(p)
    requires 1 <= k <= |w.workbook.worksheets.value[p].images|
    requires w.workbook.worksheets.value[p].images[k - 1].png.Some?
    ensures FetchImage(w, d, k) == Ok(Extracted(path, ResolvedIdentity(w, path), w.workbook.worksheets.value[p].images[k - 1].png.value))
  {
  }


  /** A successful build is the worksheet loop, run on the refreshed and marked cache, completing without a failure. */
  lemma BuildCatalogSucceeded(root: CacheRoot, lastBuilt: Option<string>, w: World)
    requires BuildCatalog(root, lastBuilt, w).result.Ok?
    ensures ResolveWorkbookPath(w.sources, w.graphClientConfigured).Ok?
    ensures w.workbook.package.Some? && PackageAnalysis(w.workbook.package.value).Ok?
    ensures w.workbook.worksheets.Some?
    ensures var path := ResolveWorkbookPath(w.sources, w.graphClientConfigured).value;
      var identity := ResolvedIdentity(w, path);
      var refreshed := RefreshedRoot(root, lastBuilt, identity);
      WriteMarker(refreshed, identity, w.now).Ok?
      && var out := CatalogSheets(WriteMarker(refreshed, identity, w.now).value,
                                  StartProgress.(diags := PackageAnalysis(w.workbook.package.value).value.0),
                                  w.workbook.worksheets.value, w.now);
      && out.failure.None?
      && BuildCatalog(root, lastBuilt, w)
         == BuildOutcome(Ok(CatalogBuildResult(out.progress.categories, path, identity, out.progress.total, out.progress.stats)),
                         out.root, Some(identity))
  {
  }

  /**
   * Every URL a successful build lists is one `get_media_image` can serve from the same
   * workbook: it names a safe category directory and an image file whose index reads back,
   * and the extraction of that image finds the worksheet and succeeds with the identity the
   * build reported.
   */
  lemma CatalogUrlsAreServed(root: CacheRoot, lastBuilt: Option<string>, w: World, c: nat, j: nat)
    requires BuildCatalog(root, lastBuilt, w).result.Ok?
    requires c < |BuildCatalog(root, lastBuilt, w).result.value.categories|
    requires j < |BuildCatalog(root, lastBuilt, w).result.value.categories[c].images|
    ensures var res := BuildCatalog(root, lastBuilt, w).result.value;
      exists d: string, k: nat :: ServedAs(w, res.categories[c].images[j], d, k, res.workbookSource, res.workbookIdentity)
  {
    BuildCatalogSucceeded(root, lastBuilt, w);
    var path := ResolveWorkbookPath(w.sources, w.graphClientConfigured).value;
    var identity := ResolvedIdentity(w, path);
    var marked := WriteMarker(RefreshedRoot(root, lastBuilt, identity), identity, w.now).value;
    var start := StartProgress.(diags := PackageAnalysis(w.workbook.package.value).value.0);
    var sheets := w.workbook.worksheets.value;
    var out := CatalogSheets(marked, start, sheets, w.now);
    CatalogSheetsProvenance(marked, start, sheets, w.now);
    UrlServed(w, path, out.progress.categories, out.progress.dirs, c, j);
  }
}
