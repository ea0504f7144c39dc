# Artwork catalog service — a Dafny model

The backend reads an Excel workbook (`.xlsx`). It comes either from a local path or from a
Microsoft Graph download, and the backend turns it into an artwork catalog: one *category* per
worksheet, each listing the URLs of the worksheet's embedded images. The images are re-encoded
as PNG into a *media cache* directory (`<cache root>/<category dir>/img_<n>.png`). Next to each
image, a `.meta` file records the *workbook identity* it was extracted from. The identity is the
path plus the file's stat, plus a content signature in graph mode. A `.workbook_identity`
marker in the cache root remembers the identity of the last build. When the identity changes,
the stale media files are deleted from every category directory under the cache root. The
categories `.` and `..` would name the cache root itself and its parent. The source lets them
through (see "## Findings"); the model rejects them, so every directory it creates or purges is
a child of the cache root.

This project models the core of `backend/app/services/catalog_service.py`:

- the naming of category directories;
- the OOXML package inspection that produces the per-sheet diagnostics;
- the notes and the count of unsupported objects;
- the workbook identity;
- the media cache: file names, `.meta` files, the marker, invalidation and ETags;
- the two requests, `get_media_image` and `build_catalog_result`;
- `validate_workbook_source` and `allowed_origins_list` of `backend/app/config.py`.

Modules, in dependency order:

| file | module | models |
|---|---|---|
| `wrappers.dfy` | `Wrappers` | `Option` and `Result` |
| `text.dfy` | `Text` | Python's `str.strip`, `lstrip`/`rstrip` of one character, `upper`, `split`, decimal and hexadecimal formatting and `int()` parsing |
| `sheet_names.dfy` | `SheetNames` | `_should_ignore_sheet`, `_safe_sheet_dir_name`, `_resolve_unique_dir_name`, the naming pass shared by `_resolve_sheet_by_category` and the build loop |
| `package_paths.dfy` | `PackagePaths` | `posixpath.dirname`/`basename`/`join`/`normpath`, `_resolve_zip_target`, `_rels_part_for` |
| `relationships.dfy` | `Relationships` | `_parse_relationships` and the insertion-ordered dict it builds |
| `diagnostics.dfy` | `Diagnostics` | `SheetDiagnostics`, `_unsupported_objects_count`, `_build_notes`, `_count_unknown_error_cells` |
| `package_inspector.dfy` | `PackageInspector` | `_analyze_sheet_drawings`, `_analyze_xlsx_package` |
| `identity.dfy` | `Identity` | `_workbook_identity_from_path`, `_compute_workbook_identity`, `peek_workbook_identity` |
| `media_cache.dfy` | `MediaCache` | the cache directory tree, `_parse_filename_index`, `.meta` files, the identity marker, `_invalidate_stale_media_cache`, `_build_media_etag` |
| `catalog_model.dfy` | `CatalogModel` | `_resolve_workbook_path`, `get_media_image` and `build_catalog_result` as functions of the cache and of what the outside world answers |
| `catalog_service.dfy` | `CatalogSvc` | the `CatalogService` object, a class whose fields are the cache and `_last_built_workbook_identity`; its methods are proved equal to the functions above |
| `config.dfy` | `Config` | `validate_workbook_source` and `allowed_origins_list` |

Pure helpers of the source are modelled as functions. Steps that update state are modelled as
methods proved against those functions:

- the service's methods;
- the cell-counting loop;
- the relationship dict;
- the drawing loop;
- the unique-name search;
- the origins loop.

The lemmas then state what the source promises of those functions:

- round trips, such as file-name index parsing and marker write and read;
- idempotence of sanitising and of `normpath`;
- distinct directory names;
- the cache's invariants under invalidation and write-through;
- the agreement between the catalog a build lists and the images `get_media_image` serves.

The outside world is a parameter (`CatalogModel.World`). It holds:

- the source mode;
- the paths and their stat;
- whether a Graph client exists;
- the workbook as the zip and workbook readers see it;
- the hash used by ETags;
- the clock.

## Model

| member | source | states |
|---|---|---|
| Text.Strip | backend/app/services/catalog_service.py:127 | the result is the input with leading and trailing Python whitespace removed; it neither starts nor ends with whitespace |
| Text.StripIdempotent | backend/app/services/catalog_service.py:158 | stripping a stripped title changes nothing |
| Text.LStripChar | backend/app/services/catalog_service.py:163 | `lstrip("/")`: a suffix of the input that does not start with `/`, and everything dropped was `/` |
| Text.RStripChar | backend/app/config.py:54 | `rstrip("/")`: a prefix of the input that does not end with `/`, and everything dropped was `/` |
| Text.Upper | backend/app/services/catalog_service.py:179 | same length, each character upper-cased |
| Text.ParseFormat | backend/app/services/catalog_service.py:357-361 | parsing the decimal or hexadecimal text of `n` gives back `n` |
| Text.FormatInjective | backend/app/services/catalog_service.py:92 | distinct numbers format to distinct digit strings |
| Text.FormatIntInjective | backend/app/services/catalog_service.py:466 | distinct signed integers (`{:x}` of a negative mtime included) format differently |
| Text.Split | backend/app/config.py:53 | `str.split(sep)`: at least one piece and no piece contains the separator |
| Text.SplitJoin | backend/app/config.py:53 | splitting the join of separator-free pieces gives the pieces back |
| Text.JoinSplit | backend/app/config.py:53 | joining the pieces of a split gives the input back |
| Text.SplitAtFirst | backend/app/services/catalog_service.py:487 | `split("\|", 1)[0]` is the text before the first separator |
| SheetNames.SheetDigitsIgnored | backend/app/services/catalog_service.py:26 | `Sheet` in any letter case (including U+017F for `s`) followed by digits is a default sheet |
| SheetNames.DefaultTitlesIgnored | backend/app/services/catalog_service.py:157-158 | `Sheet`, `Sheet<k>` and `SHEET<k>` are ignored |
| SheetNames.IgnoreDependsOnStrippedTitle | backend/app/services/catalog_service.py:157-158 | surrounding whitespace does not change whether a sheet is ignored |
| SheetNames.NonDigitTailKept | backend/app/services/catalog_service.py:157-158 | a title whose stripped form has a non-digit after the fifth character is kept |
| SheetNames.ReplaceInvalidRuns | backend/app/services/catalog_service.py:25 | the result holds only `[A-Za-z0-9._-]`, is no longer than the input, and is empty exactly when the input is |
| SheetNames.CollapseInvalidRun | backend/app/services/catalog_service.py:127 | a whole run of invalid characters becomes one `_` |
| SheetNames.ReplaceKeepsSafePrefix | backend/app/services/catalog_service.py:127 | valid characters pass through unchanged |
| SheetNames.SafeSheetDirNameAsWritten | backend/app/services/catalog_service.py:126-128 | the name matches the safe-category pattern; a blank title gives `UNTITLED`; otherwise it is no longer than the stripped title |
| SheetNames.SafeSheetDirName | backend/app/services/catalog_service.py:126-128 | corrected: the name also names a child of the cache root (never `.` or `..`); it is the name as written, or `UNTITLED` in place of a blank title, `.` or `..` |
| SheetNames.DotTitlesKeptAsWritten | backend/app/services/catalog_service.py:126-128 | as written, the titles `.` and `..` are not default titles, keep their title as directory name, and match the safe-category pattern without naming a child of the cache root |
| SheetNames.SafeNameUnchanged | backend/app/services/catalog_service.py:126-128 | a name that is already safe is its own name as written, and its own directory name unless it is `.` or `..` |
| SheetNames.SafeSheetDirNameIdempotent | backend/app/services/catalog_service.py:126-128 | sanitising twice is sanitising once |
| SheetNames.FirstFreeSuffix | backend/app/services/catalog_service.py:136-142 | the suffix search stops at the first `<base>_<k>` not in use, every earlier one being in use |
| SheetNames.UniqueDirName | backend/app/services/catalog_service.py:131-142 | the name is not in use; it is the base when the base is free, else the first free `<base>_<k>` with `k >= 2`; safe bases give safe names, and bases under the cache root names under it |
| SheetNames.ResolveUniqueDirName | backend/app/services/catalog_service.py:131-142 | the loop returns `UniqueDirName` and adds it to the used names |
| SheetNames.AssignedDirs | backend/app/services/catalog_service.py:547-555 | the naming pass gives a directory exactly to the worksheets that are not default sheets |
| SheetNames.AssignedDirsDistinct | backend/app/services/catalog_service.py:547-555 | the directories given are safe children of the cache root, new and pairwise distinct |
| SheetNames.NamingPassStep | backend/app/services/catalog_service.py:366-377 | the naming pass continues from position `i` with the name that position gets |
| SheetNames.FirstIndexOf | backend/app/services/catalog_service.py:366-377 | the first worksheet given the category's directory, or none when no worksheet was given it |
| SheetNames.SheetForDirIsUnique | backend/app/services/catalog_service.py:363-377 | the lookup by directory finds exactly the worksheet the build gave that directory |
| SheetNames.ResolveSheetByCategory | backend/app/services/catalog_service.py:363-377 | the loop finds the first worksheet whose unique directory is the category, or none exactly when no worksheet has it |
| SheetNames.CollidingTitlesGetSuffix | backend/app/services/catalog_service.py:131-142 | two titles that sanitise alike get `<name>` and `<name>_2` |
| SheetNames.SecondUseGetsSuffix | backend/app/services/catalog_service.py:136-142 | a name asked for while in use comes back as `<name>_2` |
| PackagePaths.Basename | backend/app/services/catalog_service.py:169 | the base name holds no `/` |
| PackagePaths.NormPath | backend/app/services/catalog_service.py:165 | `posixpath.normpath` never returns the empty string |
| PackagePaths.NormPathIdempotent | backend/app/services/catalog_service.py:165 | normalising a normalised path changes nothing |
| PackagePaths.NormPathOfDot | backend/app/services/catalog_service.py:165 | `normpath(".") == "."` |
| PackagePaths.NormPathClimb | backend/app/services/catalog_service.py:165 | `a/b/../c/f` normalises to `a/c/f` |
| PackagePaths.ResolveZipTarget | backend/app/services/catalog_service.py:161-163 | an absolute target loses every leading `/` and nothing else |
| PackagePaths.ResolveZipTargetIsNormal | backend/app/services/catalog_service.py:164-165 | a relative target resolves to a normalised path |
| PackagePaths.ResolveSiblingTarget | backend/app/services/catalog_service.py:161-165 | `../c/f` from part `a/b/x` resolves to `a/c/f`, as drawing and media targets do |
| PackagePaths.RelsPartInDirectory | backend/app/services/catalog_service.py:168-169 | the rels part of `dir/name` is `dir/_rels/name.rels` |
| PackagePaths.RelsPartAtRoot | backend/app/services/catalog_service.py:168-169 | the rels part of a root-level part is `_rels/name.rels` |
| Relationships.Lookup | backend/app/services/catalog_service.py:269-272 | a lookup succeeds exactly when the Id is in the table, and with unique Ids gives that entry's value |
| Relationships.Put | backend/app/services/catalog_service.py:194 | assigning keeps the order of existing Ids and appends a new Id at the end |
| Relationships.PutLookup | backend/app/services/catalog_service.py:194 | after assigning, the Id maps to the new value and every other Id is unchanged |
| Relationships.PutUnique | backend/app/services/catalog_service.py:188-194 | assigning keeps the Ids distinct |
| Relationships.Values | backend/app/services/catalog_service.py:207 | `.values()` in insertion order |
| Relationships.ParseRelationships | backend/app/services/catalog_service.py:186-195 | the loop builds the table of the relationships with a non-empty Id, each Id once |
| Relationships.LookupIsLastWithId | backend/app/services/catalog_service.py:189-194 | each Id maps to its last relationship element; the empty Id is never stored |
| Relationships.IdsOfRelsOf | backend/app/services/catalog_service.py:193 | an Id is in the table exactly when some element has it and it is not empty |
| Relationships.RelsOfSize | backend/app/services/catalog_service.py:186-195 | the table has at most one entry per element |
| Diagnostics.UnsupportedObjectsCount | backend/app/services/catalog_service.py:314-322 | the count bounds each of its terms, and is zero exactly when no picture is missing, no drawing object is a non-picture, and there are no `#UNKNOWN!` cells or failures |
| Diagnostics.UnsupportedMonotone | backend/app/services/catalog_service.py:315 | extracting more images never raises the count |
| Diagnostics.BuildNotes | backend/app/services/catalog_service.py:298-311 | no note exactly when images were extracted and nothing is unsupported |
| Diagnostics.NotesAgreeWithFlag | backend/app/services/catalog_service.py:582-583 | with images extracted, a sheet has no note exactly when it is not flagged unsupported |
| Diagnostics.UnknownValuesFirst | backend/app/services/catalog_service.py:299-300 | the `#UNKNOWN!` note is given exactly when such cells exist |
| Diagnostics.NoImagesAlwaysNoted | backend/app/services/catalog_service.py:302-305 | a sheet without images always has a note, the drawing-content one exactly when drawing objects or image references exist |
| Diagnostics.CountUnknownErrorCells | backend/app/services/catalog_service.py:172-183 | the nested loop counts the non-empty error or string cells reading `#UNKNOWN!`, ignoring case and blanks |
| Diagnostics.CountInRowsIsFlatCount | backend/app/services/catalog_service.py:174-175 | counting row by row is counting all cells |
| Diagnostics.CountInRowBounds | backend/app/services/catalog_service.py:175-182 | a row contributes at most its length, nothing when no cell matches, and its length when all do |
| PackageInspector.DrawingObjectCount | backend/app/services/catalog_service.py:224-232 | typed objects when there are any, else the anchors: bounded by both, at least the pictures, zero exactly when both are zero |
| PackageInspector.DrawingTargets | backend/app/services/catalog_service.py:205-209 | every target listed comes from a drawing relationship, every drawing relationship's target is listed, and a table of drawing relationships only gives one target per relationship |
| PackageInspector.DrawingTargetsAppend | backend/app/services/catalog_service.py:205-209 | the targets of a table are those of its first part followed by those of the rest: table order, each relationship once |
| PackageInspector.ImageTargetsMembers | backend/app/services/catalog_service.py:243-247 | a part is mapped exactly when some `/image` relationship of the drawing resolves to it |
| PackageInspector.CollectImageTargets | backend/app/services/catalog_service.py:242-247 | the loop adds exactly the image targets to the mapped set |
| PackageInspector.AnalyzeSheetDrawings | backend/app/services/catalog_service.py:197-247 | the drawing loop computes `SheetDrawingsOf`: the updated diagnostics and mapped media, or the part the XML parser rejects |
| PackageInspector.SheetDrawingsKeepsBounds | backend/app/services/catalog_service.py:230-236 | pictures never exceed objects; the mapped set only grows; the other counters are untouched |
| PackageInspector.SheetDrawingsSucceed | backend/app/services/catalog_service.py:213-217 | with every part well-formed XML, the drawing loop never fails |
| PackageInspector.AnalyzeSheet | backend/app/services/catalog_service.py:266-272 | one `<sheet>`: skipped without a name or a known relationship Id, else analysed at its resolved part |
| PackageInspector.AnalyzeSheetPart | backend/app/services/catalog_service.py:273-288 | a fresh entry for the sheet, then its drawings when its rels part exists |
| PackageInspector.AnalyzeXlsxPackage | backend/app/services/catalog_service.py:249-295 | the package analysis: empty without the workbook parts or `<sheets>`, else the per-sheet diagnostics and the unmapped media count |
| PackageInspector.PackageAnalysisProperties | backend/app/services/catalog_service.py:249-295 | every entry belongs to a named `<sheet>` with a known relationship; pictures never exceed objects; the unmapped count is at most the media parts |
| Identity.IdentityFromPath | backend/app/services/catalog_service.py:88-92 | the identity starts with `<path>\|` |
| Identity.IdentityFromPathInjective | backend/app/services/catalog_service.py:88-92 | the identity of a path tells its stat, or that it is missing |
| Identity.ComputeWorkbookIdentity | backend/app/services/catalog_service.py:105-113 | the identity extends the path identity, and equals it outside graph mode |
| Identity.LocalIdentityIgnoresSignature | backend/app/services/catalog_service.py:107-108 | outside graph mode the content signature plays no part |
| Identity.GraphSignatureExtends | backend/app/services/catalog_service.py:110-113 | in graph mode a signature appends `\|sig:<signature>` |
| Identity.GraphSignatureDistinguishes | backend/app/services/catalog_service.py:110-113 | same path and stat with different signatures give different identities |
| Identity.PeekWorkbookIdentity | backend/app/services/catalog_service.py:115-123 | outside graph mode: `local:missing` without a local path, else the local path's identity; in graph mode: the download path's identity, extended by the signature only when the file exists and has one |
| Identity.SourceOfComputedIdentity | backend/app/services/catalog_service.py:487 | the text before the first `\|` of an identity is its path, when the path holds no `\|` |
| MediaCache.ParseFilenameIndex | backend/app/services/catalog_service.py:357-361 | an index exactly for names of the form `img_<digits>.png` |
| MediaCache.ParseImageFileName | backend/app/services/catalog_service.py:567 | `img_<k>.png` reads back as `k` |
| MediaCache.MetaName | backend/app/services/catalog_service.py:448-449 | the `.meta` name of an image is a media cache file name |
| MediaCache.MetaNameInjective | backend/app/services/catalog_service.py:448-449 | distinct images have distinct `.meta` files |
| MediaCache.MetaNameIsNotImage | backend/app/services/catalog_service.py:448-449 | a `.meta` file is never an image file |
| MediaCache.CachedIdentity | backend/app/services/catalog_service.py:452-455 | a recorded identity is never empty |
| MediaCache.MakeDir | backend/app/services/catalog_service.py:557 | creating fails exactly when a plain file has the name; otherwise the directory exists and nothing else changes |
| MediaCache.WriteFile | backend/app/services/catalog_service.py:516 | a write fails exactly when a sub-directory has the name; otherwise the file holds the data and nothing else changes |
| MediaCache.HitAfterWriteThrough | backend/app/services/catalog_service.py:515-517 | after a write-through the image is a cache hit for its identity and holds the new PNG; other directories are untouched |
| MediaCache.WriteThroughFailsOnlyOnClash | backend/app/services/catalog_service.py:515-517 | the write-through succeeds unless a plain file or sub-directory is in the way |
| MediaCache.HitNeedsSameIdentity | backend/app/services/catalog_service.py:480-482 | a cached image is a hit for one identity only |
| MediaCache.MarkerIdentity | backend/app/services/catalog_service.py:385-389 | a marker identity read back is never empty |
| MediaCache.MarkerReadsBack | backend/app/services/catalog_service.py:393-395 | the marker written reads back as the stripped identity (none when blank) and no other entry changes |
| MediaCache.WriteThroughAddsOnlyCategory | backend/app/services/catalog_service.py:515-517 | a write-through adds no entry to the cache root except the category directory |
| MediaCache.WriteThroughKeepsMarker | backend/app/services/catalog_service.py:515-517 | serving an image never changes the marker |
| MediaCache.InvalidatedEntry | backend/app/services/catalog_service.py:404-430 | each entry after invalidation: removed, purged of media files, or unchanged |
| MediaCache.NoMediaFilesAfterInvalidation | backend/app/services/catalog_service.py:409-419 | no `img_<n>.png`/`.meta` file survives in a safe category directory |
| MediaCache.InvalidationKeepsOtherEntries | backend/app/services/catalog_service.py:404-413 | unsafe directories, plain files and unrelated files are kept as they were |
| MediaCache.RemovedDirsWereEmptied | backend/app/services/catalog_service.py:421-430 | a directory disappears only when it was cleaned and held nothing but media files |
| MediaCache.InvalidationIdempotent | backend/app/services/catalog_service.py:397-430 | invalidating again cleans nothing and changes nothing |
| MediaCache.NoHitAfterInvalidation | backend/app/services/catalog_service.py:480-482 | after invalidation no image is a cache hit, whatever the identity |
| MediaCache.InvalidationKeepsMarker | backend/app/services/catalog_service.py:404-406 | invalidation leaves the marker alone |
| MediaCache.Utf8Size | backend/app/services/catalog_service.py:463-466 | the `st_size` of a text file: between one and four bytes per character, and one per character exactly when the text is ASCII |
| MediaCache.Utf8SizeAppend | backend/app/services/catalog_service.py:463-466 | the byte size of concatenated text is the sum of the parts' sizes |
| MediaCache.BuildMediaEtag | backend/app/services/catalog_service.py:462-466 | the ETag is weak: `W/"…"` |
| MediaCache.EtagStatInjective | backend/app/services/catalog_service.py:466 | the hex stat prefix of the ETag determines mtime and size |
| MediaCache.EtagTracksFileStat | backend/app/services/catalog_service.py:462-466 | a file whose mtime or size changed gets a different ETag |
| CatalogModel.ResolveWorkbookPath | backend/app/services/catalog_service.py:339-354 | a path exactly when graph mode has a client or the local path is a regular file: the graph download path or the local path |
| CatalogModel.PeekAgreesWithResolved | backend/app/services/catalog_service.py:105-123 | peeking at sources that still see the resolved workbook file (same mode, path, stat and, in graph mode, signature) gives the identity a miss or a build computes |
| CatalogModel.PeekSeesChangedLocalFile | backend/app/services/catalog_service.py:88-92 | outside graph mode, a local file whose stat changed peeks as a different identity |
| CatalogModel.FetchImage | backend/app/services/catalog_service.py:491-513 | a miss extracts only at index 1 or above, from the resolved workbook, under its computed identity |
| CatalogModel.FetchImageFromFoundSheet | backend/app/services/catalog_service.py:496-504 | an extraction comes from the worksheet the category names, at an index between 1 and its image count, and its PNG is that image's |
| CatalogModel.IndexAboveCountRejected | backend/app/services/catalog_service.py:501-502 | on a miss, an index above the found worksheet's image count is an error (`IndexOutOfRange` once the workbook resolves) and writes nothing |
| CatalogModel.FetchFromSheet | backend/app/services/catalog_service.py:496-505 | an image that decodes, of the worksheet the lookup finds, is extracted as its PNG |
| CatalogModel.RejectedBeforeCacheAccess | backend/app/services/catalog_service.py:469-474 | corrected: an unsafe category, `.`, `..` or a malformed file name is rejected with its own error, whatever the cache holds, and the cache is left alone |
| CatalogModel.HitIffCachedUnderCurrentIdentity | backend/app/services/catalog_service.py:476-489 | served from the cache exactly when the image is cached under the current identity; a hit changes nothing and serves the cached bytes |
| CatalogModel.ImageZeroNeverExtracted | backend/app/services/catalog_service.py:501-502 | `img_0.png` on a miss is an error and writes nothing |
| CatalogModel.HitRepeatsMiss | backend/app/services/catalog_service.py:480-524 | a successful miss followed by the same request, while the sources still see the same workbook file, is a hit with the same bytes, ETag, source and identity |
| CatalogModel.RequestStaysInCache | backend/app/services/catalog_service.py:379-380 | a request adds no entry to the cache root except its own category directory, a child of the cache root |
| CatalogModel.SaveImages | backend/app/services/catalog_service.py:565-578 | each image is either saved or counted as a failure, and no directory is created or removed |
| CatalogModel.SaveImagesSavedFrom | backend/app/services/catalog_service.py:565-578 | saved positions increase, name images that decode, and the cache holds their PNG; other directories are untouched |
| CatalogModel.SaveImagesUnobstructed | backend/app/services/catalog_service.py:565-578 | with no sub-directory in the way, exactly the decodable images are saved and the failures are the undecodable ones |
| CatalogModel.CatalogSheetShape | backend/app/services/catalog_service.py:547-614 | one iteration: skip a default sheet, else create its unique directory, save its images, append its category, stat and count |
| CatalogModel.CatalogSheetsConsistent | backend/app/services/catalog_service.py:598-614 | one stat per category mirroring it, counts that count the URLs, a total that sums them; earlier output is kept |
| CatalogModel.CatalogSheetsNames | backend/app/services/catalog_service.py:547-550 | the categories are the kept worksheets, in order, named by title |
| CatalogModel.CatalogSheetsProvenance | backend/app/services/catalog_service.py:547-614 | every category comes from a worksheet given its directory by the naming pass, and its URLs name that worksheet's decodable images |
| CatalogModel.CatalogSheetsStayInCache | backend/app/services/catalog_service.py:552-557 | the worksheet loop adds no entry to the cache root except category directories that are children of it |
| CatalogModel.CatalogSheetsKeepMarker | backend/app/services/catalog_service.py:556-578 | the worksheet loop never changes the marker |
| CatalogModel.UrlIndexOfImageUrl | backend/app/services/catalog_service.py:570 | an image URL reads back as its index |
| CatalogModel.LastBuiltIdentity | backend/app/services/catalog_service.py:382-391 | a non-empty remembered identity wins without reading the marker; otherwise the marker's identity |
| CatalogModel.BuildCatalogSucceeded | backend/app/services/catalog_service.py:526-637 | a successful build resolved, identified and inspected the workbook, refreshed and marked the cache, and ran the loop without failure |
| CatalogModel.BuildProperties | backend/app/services/catalog_service.py:526-637 | a successful build reports its workbook and identity, lists the kept worksheets in order, keeps stats and totals consistent, and remembers the identity in the service and the marker |
| CatalogModel.BuildStaysInCache | backend/app/services/catalog_service.py:526-637 | a build adds no entry to the cache root except the marker and category directories that are children of it |
| CatalogModel.CatalogUrlsAreServed | backend/app/services/catalog_service.py:565-570 | every URL a build lists names a safe directory and an image file that `get_media_image` extracts from the same workbook under the reported identity |
| CatalogSvc.CatalogService.constructor | backend/app/services/catalog_service.py:79-85 | a service over the existing cache remembering no identity |
| CatalogSvc.CatalogService.ReadLastBuiltIdentity | backend/app/services/catalog_service.py:382-391 | returns `LastBuiltIdentity` and remembers a marker identity it read |
| CatalogSvc.CatalogService.StoreLastBuiltIdentity | backend/app/services/catalog_service.py:393-395 | remembers the identity, then writes the marker (leaving the cache as it was if the write fails) |
| CatalogSvc.CatalogService.InvalidateStaleMediaCache | backend/app/services/catalog_service.py:397-445 | nothing when the old identity is absent or equal; else the cache becomes `InvalidatedRoot` and the cleaned directories are listed once each |
| CatalogSvc.CatalogService.InvalidateRoot | backend/app/services/catalog_service.py:404-430 | the loop over the cache root computes `InvalidatedRoot` and exactly the cleaned directories |
| CatalogSvc.CatalogService.VisitCacheEntry | backend/app/services/catalog_service.py:405-430 | one child: its entry after invalidation, and whether it was cleaned |
| CatalogSvc.CatalogService.PurgeMediaFiles | backend/app/services/catalog_service.py:409-419 | deletes the media cache files of one directory and reports whether any were deleted |
| CatalogSvc.CatalogService.SaveSheetImages | backend/app/services/catalog_service.py:562-578 | the image loop: the cache, URLs and failure count of `SaveImages` |
| CatalogSvc.CatalogService.CatalogWorksheet | backend/app/services/catalog_service.py:547-614 | one iteration of the worksheet loop, equal to `CatalogSheet`; a failed mkdir changes nothing |
| CatalogSvc.CatalogService.CatalogIntoDir | backend/app/services/catalog_service.py:559-614 | count the sheet's cells, save its images, append its category |
| CatalogSvc.CatalogService.GetMediaImage | backend/app/services/catalog_service.py:468-524 | the response and cache of `MediaRequest`; the remembered identity is untouched |
| CatalogSvc.CatalogService.ExtractImage | backend/app/services/catalog_service.py:491-513 | the extraction of `FetchImage` |
| CatalogSvc.CatalogService.WriteThroughCache | backend/app/services/catalog_service.py:515-517 | the directory, image and `.meta` writes of `WriteThrough` |
| CatalogSvc.CatalogService.BuildCatalogResult | backend/app/services/catalog_service.py:526-637 | the response, cache and remembered identity of `BuildCatalog` |
| Config.ValidateWorkbookSource | backend/app/config.py:59-87 | the settings are returned unchanged when accepted, and always accepted with a local path |
| Config.ValidateAcceptsUsable | backend/app/config.py:59-87 | accepted exactly when a local path is set, or both halves of each graph reference agree and a complete reference has all three credentials |
| Config.ValidateReportsFirstProblem | backend/app/config.py:70-85 | without a local path: the half-set drive item is reported first, then the half-set site path, then missing credentials, each exactly when it applies |
| Config.NoSourceIsAccepted | backend/app/config.py:61-87 | settings with no workbook reference at all are accepted |
| Config.CredentialsIgnoredWithoutReference | backend/app/config.py:80-82 | without a complete graph reference the credentials do not affect the verdict |
| Config.NormalizedOriginShape | backend/app/config.py:54 | a normalised origin does not end with `/` or start with whitespace |
| Config.AllowedOriginsList | backend/app/config.py:50-57 | the loop returns the non-empty normalised pieces, in order |
| Config.KeptOriginsMembers | backend/app/config.py:53-56 | an origin is listed exactly when it is non-empty and normalises from some piece |
| Config.AllowedOriginsWellFormed | backend/app/config.py:53-56 | every listed origin is non-empty, has no trailing `/`, no leading whitespace and no comma |
| Config.AllowedOriginsKeepOrder | backend/app/config.py:53-56 | joining two settings with a comma lists the first's origins, then the second's |
| Config.SingleOriginKept | backend/app/config.py:53-56 | an already-normal single origin is listed as itself |
| Config.DefaultOrigins | backend/app/config.py:31 | the default setting allows exactly `http://localhost:5173` |

## Left out

- I/O is modelled as data:
  - The file system under the cache root is a map from names to category directories or plain files, one level deep.
  - Paths are strings, with no symbolic links. The names `.` and `..` are never entries of the map: the model rejects them as categories and renames such worksheets, so no path needs resolving (see "## Findings").
  - The cache root always exists, as the constructor and `build_catalog_result` create it.
  - Its location (`artwork_cache` under the system temporary directory) is not modelled.
- The Graph client and its download (`backend/app/services/graph_client.py` is not part of this model).
  - `_resolve_workbook_path` takes the download path and whether a client exists as inputs.
  - `_graph_tmp_workbook_path` and `_resolve_local_xlsx_path` (`expanduser`, relative paths against `base_dir`, the `VERCEL` variable) are inputs: the paths and their stat.
  - `_graph_content_signature` (SHA-1 of the first 64 KiB) is the input `signature`.
- ZIP, XML, openpyxl and PIL are inputs:
  - the archive is a map from part names to parsed XML summaries, or to a part the parser rejects;
  - worksheets are titles, typed cells and images;
  - an image either re-encodes to PNG bytes or fails to (`_to_png_bytes`, `_save_as_png`).
- The SHA-1 hash in `_build_media_etag` is the parameter `hash`. The model does not truncate it to 16 hex digits itself.
- `quote(safe_sheet_name)` is the identity, which is exact because a safe name holds only `[A-Za-z0-9._-]`.
- Regular-expression `\d` is modelled as ASCII digits. Python's `\d` also accepts other Unicode decimal digits in sheet titles and cache file names.
- `str.upper` is modelled on ASCII letters only. For comparison with `#UNKNOWN!` no other letter upper-cases to one of its letters.
- Timings (`extraction_ms`, `total_ms`), logging, and the invalidation's removed-file counters are left out.
- The `unmapped_media_count` is computed but only logged, so the build result does not carry it.
- `_invalidate_stale_media_cache` visits the root's children in `iterdir` order. The model returns the cleaned directories as a duplicate-free sequence specified by set membership, and does not fix their order.
- `child.rmdir()` failing with `OSError` is not modelled: an emptied directory is always removed.
- A partial PNG written before a failure inside `_save_as_png` is not modelled. A failed image writes nothing.
- `SheetDiagnostics` is a value. The in-place update of the dict entry is reproduced by writing the updated value back into the diagnostics map.
- `settings.source_mode` is read by `catalog_service.py` but `backend/app/config.py` defines no such field. The model takes the mode as the input `IdentitySources.mode` and compares it with `"graph"`.
- `build_catalog` (the list of categories of `build_catalog_result`) is not modelled separately.
- `Settings.base_dir`, `static_dir`, `media_dir`, `get_settings`, and reading the settings from the environment and `.env` are not modelled.
- `validate_workbook_source` models the three `ValueError` messages as `Config.ErrorMessage`. Pydantic's wrapping of them is not modelled.
- MediaCache.CachedIdentity: a `.meta` file holding bytes rather than text reads as no identity. The source decodes it as UTF-8: valid UTF-8 is compared like text, and invalid UTF-8 raises `UnicodeDecodeError` out of `get_media_image`. The service itself only writes text there.
- MediaCache.MarkerIdentity: a marker holding bytes reads as no identity. The source decodes it as UTF-8 or raises `UnicodeDecodeError` out of `build_catalog_result`.
- CatalogModel.ResolveWorkbookPath: the Graph download (`download_excel_file`), the `mkdir` of its parent and the `write_bytes` of the temporary workbook are assumed to succeed. Their exceptions are not modelled.
- SheetNames.SafeSheetDirName: differs from the source for the titles `.` and `..`, which it maps to `UNTITLED`. `SafeSheetDirNameAsWritten` is the source's function (see "## Findings").
- PackageInspector.PackageAnalysisProperties: states that the unmapped media count is at most the number of media parts. The exact set difference is the body of `PackageAnalysis`, not a separate lemma.
- CatalogModel.HitRepeatsMiss: requires the identity to be already stripped and the path to hold no `|`. Otherwise the `.meta` file's stripped text, or the source read back from the identity, differs from what the miss reported, as in the source.

## Findings

| source | as written | input that shows it | evidently intended | confidence | as-written member | corrected member |
|---|---|---|---|---|---|---|
| backend/app/services/catalog_service.py:126-128 | `_safe_sheet_dir_name` keeps the titles `.` and `..`, which match `SAFE_CATEGORY_PATTERN`. The build then creates `cache_root / ".."` and writes `img_<n>.png` into the parent of the cache root, or into the cache root itself for `.`. Invalidation, which walks only the root's children, never purges them. | a worksheet titled `..` | every category directory is a child of the cache root, as the safe-name pattern is there to stop path traversal | high, not executed | SheetNames.DotTitlesKeptAsWritten | SheetNames.SafeSheetDirName |
| backend/app/services/catalog_service.py:469-470 | `get_media_image` accepts the categories `.` and `..` because they match the pattern. With a worksheet titled `..`, a miss writes the image and its `.meta` under the cache root's parent. | `get_media_image("..", "img_1.png")` | a request only reads and writes inside the cache root | high, not executed | SheetNames.DotTitlesKeptAsWritten | CatalogModel.RequestStaysInCache |
