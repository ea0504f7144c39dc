/**
 * The static pass over the workbook's zip package (Office Open XML, ISO/IEC 29500-2): from
 * `xl/workbook.xml` and its relationships to each sheet, from each sheet to its drawings,
 * and from each drawing to the images it uses. It produces per-sheet drawing counters and the
 * number of files under `xl/media/` that no drawing refers to.
 *
 * A part is either XML, described by what the inspector's element queries find in it, or a
 * part the XML parser rejects, which makes the whole pass fail.
 */
module PackageInspector {
  import opened Wrappers
  import opened Text
  import opened PackagePaths
  import opened Relationships
  import opened Diagnostics

  /** How many of each drawing element a drawing part holds, at any depth. */
  datatype DrawingCounts = DrawingCounts(
    pic: nat, sp: nat, graphicFrame: nat, grpSp: nat, cxnSp: nat, blip: nat,
    oneCellAnchor: nat, twoCellAnchor: nat, absoluteAnchor: nat)

  /** A `<sheet>` element of the workbook: its `name` and `r:id` attributes, each present or absent. */
  datatype SheetElement = SheetElement(name: Option<string>, relId: Option<string>)

  /**
   * What the inspector's queries find in an XML part: the `<Relationship>` children of the root,
   * the `<sheet>` children of the `<sheets>` child of the root when there is one, and the
   * drawing element counts.
   */
  datatype XmlDoc = XmlDoc(relationships: seq<RelElement>, sheets: Option<seq<SheetElement>>, counts: DrawingCounts)

  datatype Part = Xml(doc: XmlDoc) | Malformed

  /** The zip archive: part name to part. */
  type Archive = map<string, Part>

  /** The parser rejected the named part. */
  datatype InspectError = MalformedXml(part: string)

  const WorkbookPart := "xl/workbook.xml"
  const WorkbookRelsPart := "xl/_rels/workbook.xml.rels"
  const MediaPrefix := "xl/media/"

  /** Pictures, shapes, graphic frames, groups and connectors. */
  function TypedObjects(c: DrawingCounts): nat {
    c.pic + c.sp + c.graphicFrame + c.grpSp + c.cxnSp
  }

  function Anchors(c: DrawingCounts): nat {
    c.oneCellAnchor + c.twoCellAnchor + c.absoluteAnchor
  }

  /** The objects of a drawing: the typed elements, or the anchors when there are none. */
  function DrawingObjectCount(c: DrawingCounts): (n: nat)
    ensures c.pic <= n
    ensures TypedObjects(c) <= n <= TypedObjects(c) + Anchors(c)
    ensures n == 0 <==> TypedObjects(c) == 0 && Anchors(c) == 0
  {
    var typed := TypedObjects(c);
    if typed == 0 && Anchors(c) > 0 then Anchors(c) else typed
  }

  /** A sheet relationship that leads to a drawing: its type ends in `/drawing` or its target mentions `drawings/`. */
  predicate IsDrawingRel(r: Rel) {
    EndsWith(r.relType, "/drawing") || Contains(r.target, "drawings/")
  }

  /** The targets of the drawing relationships, in table order. */
  function DrawingTargets(rels: seq<Rel>): (ts: seq<string>)
    ensures |ts| <= |rels|
    ensures forall t :: t in ts ==> exists r :: r in rels && IsDrawingRel(r) && r.target == t
    ensures forall i :: 0 <= i < |rels| && IsDrawingRel(rels[i]) ==> rels[i].target in ts
    ensures (forall i :: 0 <= i < |rels| ==> IsDrawingRel(rels[i])) ==> |ts| == |rels|
    decreases |rels|
  {
    if rels == [] then []
    else
      assert forall i :: 1 <= i < |rels| ==> rels[i] == rels[1..][i - 1];
      (if IsDrawingRel(rels[0]) then [rels[0].target] else []) + DrawingTargets(rels[1..])
  }

  /**
   * The targets of a table read in two parts are those of the first part followed by those of
   * the second: drawings are visited in table order, each drawing relationship once.
   */
  lemma {:induction false} DrawingTargetsAppend(a: seq<Rel>, b: seq<Rel>)
    ensures DrawingTargets(a + b) == DrawingTargets(a) + DrawingTargets(b)
    decreases |a|
  {
    if a != [] {
      assert (a + b)[0] == a[0] && (a + b)[1..] == a[1..] + b;
      DrawingTargetsAppend(a[1..], b);
    } else {
      assert a + b == b;
    }
  }

  /** The parts an image relationship of `drawingPart` points to. */
  function ImageTargets(drawingPart: string, rels: seq<Rel>): set<string>
    decreases |rels|
  {
    if rels == [] then {}
    else
      var last := rels[|rels| - 1];
      ImageTargets(drawingPart, rels[..|rels| - 1])
        + (if Contains(last.relType, "/image") then {ResolveZipTarget(drawingPart, last.target)} else {})
  }

  /** `r` is an image relationship of `drawingPart` that resolves to part `p`. */
  predicate ImageRelTo(drawingPart: string, r: Rel, p: string) {
    Contains(r.relType, "/image") && ResolveZipTarget(drawingPart, r.target) == p
  }

  /** A part is an image target exactly when some image relationship resolves to it. */
  lemma {:induction false} ImageTargetsMembers(drawingPart: string, rels: seq<Rel>, p: string)
    ensures p in ImageTargets(drawingPart, rels) <==> exists i :: 0 <= i < |rels| && ImageRelTo(drawingPart, rels[i], p)
    decreases |rels|
  {
    if rels != [] {
      var init := rels[..|rels| - 1];
      ImageTargetsMembers(drawingPart, init, p);
      assert forall i :: 0 <= i < |init| ==> init[i] == rels[i];
    }
  }

  /** The inner loop of `_analyze_sheet_drawings`: add the image targets of one drawing to `mapped`. */
  method CollectImageTargets(drawingPart: string, rels: seq<Rel>, mapped: set<string>) returns (result: set<string>)
    ensures result == mapped + ImageTargets(drawingPart, rels)
  {
    result := mapped;
    var i := 0;
    while i < |rels|
      invariant 0 <= i <= |rels|
      invariant result == mapped + ImageTargets(drawingPart, rels[..i])
    {
      assert rels[..i + 1][..i] == rels[..i];
      if Contains(rels[i].relType, "/image") {
        result := result + {ResolveZipTarget(drawingPart, rels[i].target)};
      }
      i := i + 1;
    }
    assert rels[..i] == rels;
  }

  /** The diagnostics after counting one drawing's elements. */
  function AddDrawing(d: SheetDiagnostics, c: DrawingCounts): SheetDiagnostics {
    d.(drawingObjects := d.drawingObjects + DrawingObjectCount(c),
       drawingPictures := d.drawingPictures + c.pic,
       embeddedImageRefs := d.embeddedImageRefs + c.blip)
  }

  /** What one drawing relationship of a sheet contributes: counts, then image targets. */
  function DrawingStep(archive: Archive, sheetPart: string, target: string, d: SheetDiagnostics, mapped: set<string>)
    : Result<(SheetDiagnostics, set<string>), InspectError>
  {
    var part := ResolveZipTarget(sheetPart, target);
    if part !in archive then Ok((d, mapped))
    else match archive[part]
      case Malformed => Err(MalformedXml(part))
      case Xml(doc) =>
        var d' := AddDrawing(d, doc.counts);
        var relsPart := RelsPartFor(part);
        if relsPart !in archive then Ok((d', mapped))
        else match archive[relsPart]
          case Malformed => Err(MalformedXml(relsPart))
          case Xml(rdoc) => Ok((d', mapped + ImageTargets(part, Values(RelsOf(rdoc.relationships)))))
  }

  function SheetDrawings(archive: Archive, sheetPart: string, targets: seq<string>, d: SheetDiagnostics, mapped: set<string>)
    : Result<(SheetDiagnostics, set<string>), InspectError>
    decreases |targets|
  {
    if targets == [] then Ok((d, mapped))
    else match DrawingStep(archive, sheetPart, targets[0], d, mapped)
      case Err(e) => Err(e)
      case Ok(acc) => SheetDrawings(archive, sheetPart, targets[1..], acc.0, acc.1)
  }

  /** The outcome `_analyze_sheet_drawings` leaves in the sheet's diagnostics and the mapped media set. */
  function SheetDrawingsOf(archive: Archive, sheetPart: string, sheetRels: RelTable, d: SheetDiagnostics, mapped: set<string>)
    : Result<(SheetDiagnostics, set<string>), InspectError>
  {
    var targets := DrawingTargets(Values(sheetRels));
    SheetDrawings(archive, sheetPart, targets, d.(drawingRelationships := |targets|), mapped)
  }

  /**
   * `_analyze_sheet_drawings`: count the drawing relationships of a sheet, then for each drawing
   * part present in the archive add its object, picture and image-reference counts and record
   * the parts its image relationships point to.
   */
  method AnalyzeSheetDrawings(archive: Archive, sheetPart: string, sheetRels: RelTable, diagnostics: SheetDiagnostics, mapped: set<string>)
    returns (res: Result<(SheetDiagnostics, set<string>), InspectError>)
    ensures res == SheetDrawingsOf(archive, sheetPart, sheetRels, diagnostics, mapped)
  {
    var targets := DrawingTargets(Values(sheetRels));
    var d := diagnostics.(drawingRelationships := |targets|);
    var m := mapped;
    var i := 0;
    while i < |targets|
      invariant 0 <= i <= |targets|
      invariant SheetDrawings(archive, sheetPart, targets[i..], d, m) == SheetDrawingsOf(archive, sheetPart, sheetRels, diagnostics, mapped)
    {
      assert targets[i..][0] == targets[i] && targets[i..][1..] == targets[i + 1..];
      var drawingPart := ResolveZipTarget(sheetPart, targets[i]);
      if drawingPart in archive {
        match archive[drawingPart]
        case Malformed =>
          return Err(MalformedXml(drawingPart));
        case Xml(doc) =>
          d := AddDrawing(d, doc.counts);
          var relsPart := RelsPartFor(drawingPart);
          if relsPart in archive {
            match archive[relsPart]
            case Malformed =>
              return Err(MalformedXml(relsPart));
            case Xml(rdoc) =>
              var table := ParseRelationships(rdoc.relationships);
              m := CollectImageTargets(drawingPart, Values(table), m);
          }
      }
      i := i + 1;
    }
    return Ok((d, m));
  }

  /** Counting drawings keeps pictures within objects and never loses a mapped target. */
  lemma {:induction false} SheetDrawingsKeepsBounds(archive: Archive, sheetPart: string, targets: seq<string>, d: SheetDiagnostics, mapped: set<string>)
    requires d.drawingPictures <= d.drawingObjects
    ensures match SheetDrawings(archive, sheetPart, targets, d, mapped)
      case Ok(acc) =>
        acc.0.drawingPictures <= acc.0.drawingObjects && mapped <= acc.1
        && acc.0.drawingRelationships == d.drawingRelationships && acc.0.unknownErrorCells == d.unknownErrorCells
        && acc.0.extractionFailures == d.extractionFailures
      case Err(_) => true
    decreases |targets|
  {
    if targets != [] {
      match DrawingStep(archive, sheetPart, targets[0], d, mapped)
      case Err(_) =>
      case Ok(acc) =>
        SheetDrawingsKeepsBounds(archive, sheetPart, targets[1..], acc.0, acc.1);
    }
  }

  /** Every part XML-readable: the drawing pass cannot fail. */
  predicate AllXml(archive: Archive) {
    forall p :: p in archive ==> archive[p].Xml?
  }

  lemma {:induction false} SheetDrawingsSucceed(archive: Archive, sheetPart: string, targets: seq<string>, d: SheetDiagnostics, mapped: set<string>)
    requires AllXml(archive)
    ensures SheetDrawings(archive, sheetPart, targets, d, mapped).Ok?
    decreases |targets|
  {
    if targets != [] {
      var acc := DrawingStep(archive, sheetPart, targets[0], d, mapped);
      assert acc.Ok?;
      SheetDrawingsSucceed(archive, sheetPart, targets[1..], acc.value.0, acc.value.1);
    }
  }

  // ---------------------------------------------------------------------------
  // The whole package.

  /** The file-like parts under `xl/media/`. */
  function MediaParts(archive: Archive): set<string> {
    set p | p in archive && MediaPrefix <= p && !EndsWith(p, "/")
  }

  function NameOf(s: SheetElement): string {
    if s.name.Some? then s.name.value else ""
  }

  /** The workbook relationship a sheet element points to, when it has a name and a known non-empty `r:id`. */
  function SheetRel(wbRels: RelTable, s: SheetElement): Option<Rel> {
    if NameOf(s) == "" || s.relId.None? || s.relId.value == "" then None
    else Lookup(wbRels, s.relId.value)
  }

  /** What a named sheet stored at `sheetPart` contributes: fresh diagnostics, filled in from its drawings. */
  function SheetPartStep(archive: Archive, name: string, sheetPart: string, diags: map<string, SheetDiagnostics>, mapped: set<string>)
    : Result<(map<string, SheetDiagnostics>, set<string>), InspectError>
  {
    var relsPart := RelsPartFor(sheetPart);
    if relsPart !in archive then Ok((diags[name := Fresh], mapped))
    else match archive[relsPart]
      case Malformed => Err(MalformedXml(relsPart))
      case Xml(doc) =>
        match SheetDrawingsOf(archive, sheetPart, RelsOf(doc.relationships), Fresh, mapped)
        case Err(e) => Err(e)
        case Ok(acc) => Ok((diags[name := acc.0], acc.1))
  }

  /** What one `<sheet>` element contributes to the per-sheet map and the mapped media set. */
  function SheetStep(archive: Archive, wbRels: RelTable, s: SheetElement, diags: map<string, SheetDiagnostics>, mapped: set<string>)
    : Result<(map<string, SheetDiagnostics>, set<string>), InspectError>
  {
    match SheetRel(wbRels, s)
    case None => Ok((diags, mapped))
    case Some(rel) => SheetPartStep(archive, NameOf(s), ResolveZipTarget(WorkbookPart, rel.target), diags, mapped)
  }

  function SheetsPass(archive: Archive, wbRels: RelTable, sheets: seq<SheetElement>, diags: map<string, SheetDiagnostics>, mapped: set<string>)
    : Result<(map<string, SheetDiagnostics>, set<string>), InspectError>
    decreases |sheets|
  {
    if sheets == [] then Ok((diags, mapped))
    else match SheetStep(archive, wbRels, sheets[0], diags, mapped)
      case Err(e) => Err(e)
      case Ok(acc) => SheetsPass(archive, wbRels, sheets[1..], acc.0, acc.1)
  }

  /** The result of `_analyze_xlsx_package`: diagnostics by sheet name and the unmapped media count. */
  function PackageAnalysis(archive: Archive): Result<(map<string, SheetDiagnostics>, nat), InspectError> {
    if WorkbookPart !in archive || WorkbookRelsPart !in archive then Ok((map[], 0))
    else match archive[WorkbookPart]
      case Malformed => Err(MalformedXml(WorkbookPart))
      case Xml(wb) =>
        match archive[WorkbookRelsPart]
        case Malformed => Err(MalformedXml(WorkbookRelsPart))
        case Xml(wr) =>
          if wb.sheets.None? then Ok((map[], 0))
          else match SheetsPass(archive, RelsOf(wr.relationships), wb.sheets.value, map[], {})
            case Err(e) => Err(e)
            case Ok(acc) => Ok((acc.0, |MediaParts(archive) - acc.1|))
  }

  /** The body of `_analyze_xlsx_package`'s loop for one `<sheet>` element. */
  method AnalyzeSheet(archive: Archive, wbRels: RelTable, s: SheetElement, diags: map<string, SheetDiagnostics>, mapped: set<string>)
    returns (res: Result<(map<string, SheetDiagnostics>, set<string>), InspectError>)
    ensures res == SheetStep(archive, wbRels, s, diags, mapped)
  {
    var name := if s.name.Some? then s.name.value else "";
    if name == "" || s.relId.None? || s.relId.value == "" || Lookup(wbRels, s.relId.value).None? {
      return Ok((diags, mapped));
    }
    var rel := Lookup(wbRels, s.relId.value).value;
    var sheetPart := ResolveZipTarget(WorkbookPart, rel.target);
    res := AnalyzeSheetPart(archive, name, sheetPart, diags, mapped);
  }

  /** A named sheet: record fresh diagnostics, then analyse its drawings when it has a relationships part. */
  method AnalyzeSheetPart(archive: Archive, name: string, sheetPart: string, diags: map<string, SheetDiagnostics>, mapped: set<string>)
    returns (res: Result<(map<string, SheetDiagnostics>, set<string>), InspectError>)
    ensures res == SheetPartStep(archive, name, sheetPart, diags, mapped)
  {
    var relsPart := RelsPartFor(sheetPart);
    if relsPart !in archive {
      return Ok((diags[name := Fresh], mapped));
    }
    if archive[relsPart].Malformed? {
      return Err(MalformedXml(relsPart));
    }
    var sheetRels := ParseRelationships(archive[relsPart].doc.relationships);
    // the analysis fills in the same fresh diagnostics object the map holds for the sheet
    var r := AnalyzeSheetDrawings(archive, sheetPart, sheetRels, Fresh, mapped);
    if r.Err? {
      return Err(r.error);
    }
    return Ok((diags[name := r.value.0], r.value.1));
  }

  /**
   * `_analyze_xlsx_package`: walk the workbook's sheets in document order; a sheet with a name
   * and a resolvable relationship gets fresh diagnostics, filled in from its drawings when its
   * relationships part exists; finally count the media files no image relationship reached.
   */
  method AnalyzeXlsxPackage(archive: Archive) returns (res: Result<(map<string, SheetDiagnostics>, nat), InspectError>)
    ensures res == PackageAnalysis(archive)
  {
    if WorkbookPart !in archive || WorkbookRelsPart !in archive {
      return Ok((map[], 0));
    }
    if archive[WorkbookPart].Malformed? {
      return Err(MalformedXml(WorkbookPart));
    }
    if archive[WorkbookRelsPart].Malformed? {
      return Err(MalformedXml(WorkbookRelsPart));
    }
    var wb := archive[WorkbookPart].doc;
    var wbRels := ParseRelationships(archive[WorkbookRelsPart].doc.relationships);
    if wb.sheets.None? {
      return Ok((map[], 0));
    }
    var sheets := wb.sheets.value;
    var diags: map<string, SheetDiagnostics> := map[];
    var mapped: set<string> := {};
    var i := 0;
    while i < |sheets|
      invariant 0 <= i <= |sheets|
      invariant SheetsPass(archive, wbRels, sheets[i..], diags, mapped) == SheetsPass(archive, wbRels, sheets, map[], {})
    {
      assert sheets[i..][0] == sheets[i] && sheets[i..][1..] == sheets[i + 1..];
      var r := AnalyzeSheet(archive, wbRels, sheets[i], diags, mapped);
      if r.Err? {
        return Err(r.error);
      }
      diags, mapped := r.value.0, r.value.1;
      i := i + 1;
    }
    var media := MediaParts(archive);
    return Ok((diags, |media - mapped|));
  }

  /** Every sheet in the result was named in the workbook and reached through a known relationship. */
  predicate EntriesFromSheets(wbRels: RelTable, sheets: seq<SheetElement>, diags: map<string, SheetDiagnostics>) {
    forall name :: name in diags ==>
      name != "" && exists j :: 0 <= j < |sheets| && NameOf(sheets[j]) == name && SheetRel(wbRels, sheets[j]).Some?
  }

  predicate PicturesWithinObjects(diags: map<string, SheetDiagnostics>) {
    forall name :: name in diags ==> diags[name].drawingPictures <= diags[name].drawingObjects
  }

  lemma SheetStepProperties(archive: Archive, wbRels: RelTable, sheets: seq<SheetElement>, k: nat,
                            diags: map<string, SheetDiagnostics>, mapped: set<string>)
    requires k < |sheets|
    requires EntriesFromSheets(wbRels, sheets, diags) && PicturesWithinObjects(diags)
    ensures match SheetStep(archive, wbRels, sheets[k], diags, mapped)
      case Ok(acc) => EntriesFromSheets(wbRels, sheets, acc.0) && PicturesWithinObjects(acc.0)
      case Err(_) => true
  {
    var s := sheets[k];
    match SheetRel(wbRels, s)
    case None =>
    case Some(rel) =>
      var sheetPart := ResolveZipTarget(WorkbookPart, rel.target);
      var relsPart := RelsPartFor(sheetPart);
      if relsPart !in archive {
        RecordKeepsProperties(wbRels, sheets, k, diags, Fresh);
      } else if archive[relsPart].Xml? {
        var sheetRels := RelsOf(archive[relsPart].doc.relationships);
        var targets := DrawingTargets(Values(sheetRels));
        SheetDrawingsKeepsBounds(archive, sheetPart, targets, Fresh.(drawingRelationships := |targets|), mapped);
        match SheetDrawingsOf(archive, sheetPart, sheetRels, Fresh, mapped)
        case Err(_) =>
        case Ok(acc) => RecordKeepsProperties(wbRels, sheets, k, diags, acc.0);
      }
  }

  /** Recording the diagnostics of a named sheet reached through a relationship keeps both properties. */
  lemma RecordKeepsProperties(wbRels: RelTable, sheets: seq<SheetElement>, k: nat, diags: map<string, SheetDiagnostics>, x: SheetDiagnostics)
    requires k < |sheets| && NameOf(sheets[k]) != "" && SheetRel(wbRels, sheets[k]).Some?
    requires EntriesFromSheets(wbRels, sheets, diags) && PicturesWithinObjects(diags)
    requires x.drawingPictures <= x.drawingObjects
    ensures EntriesFromSheets(wbRels, sheets, diags[NameOf(sheets[k]) := x])
    ensures PicturesWithinObjects(diags[NameOf(sheets[k]) := x])
  {
  }

  lemma {:induction false} SheetsPassProperties(archive: Archive, wbRels: RelTable, sheets: seq<SheetElement>, i: nat,
                                                diags: map<string, SheetDiagnostics>, mapped: set<string>)
    requires i <= |sheets|
    requires EntriesFromSheets(wbRels, sheets, diags) && PicturesWithinObjects(diags)
    ensures match SheetsPass(archive, wbRels, sheets[i..], diags, mapped)
      case Ok(acc) => EntriesFromSheets(wbRels, sheets, acc.0) && PicturesWithinObjects(acc.0)
      case Err(_) => true
    decreases |sheets| - i
  {
    if i < |sheets| {
      assert sheets[i..][0] == sheets[i] && sheets[i..][1..] == sheets[i + 1..];
      SheetStepProperties(archive, wbRels, sheets, i, diags, mapped);
      match SheetStep(archive, wbRels, sheets[i], diags, mapped)
      case Err(_) =>
      case Ok(acc) =>
        SheetsPassProperties(archive, wbRels, sheets, i + 1, acc.0, acc.1);
    }
  }

  /**
   * What the package analysis promises: an entry only for a named sheet of `xl/workbook.xml`
   * reached through a relationship of `xl/_rels/workbook.xml.rels`, no entry at all when either
   * part or the `<sheets>` element is missing, pictures never outnumbering objects, and no more
   * unmapped media than media files.
   */
  lemma PackageAnalysisProperties(archive: Archive)
    ensures match PackageAnalysis(archive)
      case Ok(r) =>
        && (r.0 != map[] ==>
              && WorkbookPart in archive && WorkbookRelsPart in archive
              && archive[WorkbookPart].Xml? && archive[WorkbookRelsPart].Xml?
              && archive[WorkbookPart].doc.sheets.Some?
              && EntriesFromSheets(RelsOf(archive[WorkbookRelsPart].doc.relationships), archive[WorkbookPart].doc.sheets.value, r.0))
        && PicturesWithinObjects(r.0)
        && r.1 <= |MediaParts(archive)|
      case Err(_) => true
  {
    if WorkbookPart in archive && WorkbookRelsPart in archive && archive[WorkbookPart].Xml? && archive[WorkbookRelsPart].Xml?
       && archive[WorkbookPart].doc.sheets.Some? {
      var sheets := archive[WorkbookPart].doc.sheets.value;
      var wbRels := RelsOf(archive[WorkbookRelsPart].doc.relationships);
      assert sheets[0..] == sheets;
      SheetsPassProperties(archive, wbRels, sheets, 0, map[], {});
      match SheetsPass(archive, wbRels, sheets, map[], {})
      case Err(_) =>
      case Ok(acc) =>
        assert MediaParts(archive) - acc.1 <= MediaParts(archive);
        SubsetSize(MediaParts(archive) - acc.1, MediaParts(archive));
    }
  }

  lemma SubsetSize(a: set<string>, b: set<string>)
    requires a <= b
    ensures |a| <= |b|
  {
    assert b == a + (b - a);
  }

}
