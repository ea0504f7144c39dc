/**
 * The two pieces of the service settings with logic in them: the check that the configured
 * workbook source is usable (a local `.xlsx` path, or a complete Microsoft Graph reference with
 * the credentials to fetch it), and the parsing of the comma-separated CORS origins setting.
 *
 * A setting read from the environment is `None` when the variable is absent; an empty string
 * counts as not set, as Python's truthiness has it.
 */
module Config {
  import opened Wrappers
  import opened Text

  // ---------------------------------------------------------------------------
  // The workbook source.

  /** The settings `validate_workbook_source` reads. */
  datatype SourceSettings = SourceSettings(
    localXlsxPath: Option<string>,
    graphDriveId: Option<string>,
    graphItemId: Option<string>,
    graphSiteId: Option<string>,
    graphFilePath: Option<string>,
    graphTenantId: Option<string>,
    graphClientId: Option<string>,
    graphClientSecret: Option<string>)

  /** `bool(value)` for an optional string: present and not empty. */
  predicate IsSet(v: Option<string>) {
    v.Some? && v.value != ""
  }

  /** The `ValueError`s the validator raises. */
  datatype ConfigError = IncompleteDriveItem | IncompleteSitePath | MissingGraphCredentials

  function ErrorMessage(e: ConfigError): string {
    match e
    case IncompleteDriveItem => "GRAPH_DRIVE_ID and GRAPH_ITEM_ID must both be set when using drive item mode."
    case IncompleteSitePath => "GRAPH_SITE_ID and GRAPH_FILE_PATH must both be set when using site path mode."
    case MissingGraphCredentials => "Graph mode requires MS_TENANT_ID, MS_CLIENT_ID, and MS_CLIENT_SECRET."
  }

  predicate HasLocalRef(s: SourceSettings) {
    IsSet(s.localXlsxPath)
  }

  /** A drive item reference: drive id and item id. */
  predicate HasDriveRef(s: SourceSettings) {
    IsSet(s.graphDriveId) && IsSet(s.graphItemId)
  }

  /** A site path reference: site id and file path. */
  predicate HasSitePathRef(s: SourceSettings) {
    IsSet(s.graphSiteId) && IsSet(s.graphFilePath)
  }

  predicate HasAnyDriveField(s: SourceSettings) {
    IsSet(s.graphDriveId) || IsSet(s.graphItemId)
  }

  predicate HasAnySiteField(s: SourceSettings) {
    IsSet(s.graphSiteId) || IsSet(s.graphFilePath)
  }

  predicate HasCredentials(s: SourceSettings) {
    IsSet(s.graphTenantId) && IsSet(s.graphClientId) && IsSet(s.graphClientSecret)
  }

  /**
   * `Settings.validate_workbook_source`: the settings themselves when the source is usable,
   * otherwise the first complaint in the validator's order — a half-given drive reference,
   * then a half-given site reference, then missing credentials for a Graph reference.
   */
  function ValidateWorkbookSource(s: SourceSettings): (r: Result<SourceSettings, ConfigError>)
    ensures r.Ok? ==> r.value == s
    ensures HasLocalRef(s) ==> r == Ok(s)
  {
    if HasLocalRef(s) then Ok(s)
    else if HasAnyDriveField(s) && !HasDriveRef(s) then Err(IncompleteDriveItem)
    else if HasAnySiteField(s) && !HasSitePathRef(s) then Err(IncompleteSitePath)
    else if (HasDriveRef(s) || HasSitePathRef(s)) && !HasCredentials(s) then Err(MissingGraphCredentials)
    else Ok(s)
  }

  /**
   * When a configuration is usable, said field by field: a local path, or else each Graph
   * reference is given completely or not at all, and a complete one comes with all three
   * credentials.
   */
  predicate Usable(s: SourceSettings) {
    || IsSet(s.localXlsxPath)
    || (&& (IsSet(s.graphDriveId) <==> IsSet(s.graphItemId))
        && (IsSet(s.graphSiteId) <==> IsSet(s.graphFilePath))
        && (IsSet(s.graphDriveId) || IsSet(s.graphSiteId) ==> HasCredentials(s)))
  }

  /** The validator accepts exactly the usable configurations. */
  lemma ValidateAcceptsUsable(s: SourceSettings)
    ensures ValidateWorkbookSource(s).Ok? <==> Usable(s)
  {
  }

  /**
   * Each rejection names its cause, and the causes are checked in order: a half-given drive
   * reference is reported even when the site reference is half-given too, and missing
   * credentials only when both references are whole or absent.
   */
  lemma ValidateReportsFirstProblem(s: SourceSettings)
    requires !HasLocalRef(s)
    ensures ValidateWorkbookSource(s) == Err(IncompleteDriveItem)
        <==> (IsSet(s.graphDriveId) != IsSet(s.graphItemId))
    ensures ValidateWorkbookSource(s) == Err(IncompleteSitePath)
        <==> (IsSet(s.graphDriveId) == IsSet(s.graphItemId)) && (IsSet(s.graphSiteId) != IsSet(s.graphFilePath))
    ensures ValidateWorkbookSource(s) == Err(MissingGraphCredentials)
        <==> && (IsSet(s.graphDriveId) == IsSet(s.graphItemId))
             && (IsSet(s.graphSiteId) == IsSet(s.graphFilePath))
             && (IsSet(s.graphDriveId) || IsSet(s.graphSiteId))
             && !HasCredentials(s)
  {
  }

  /** With no source field set at all there is nothing to complain about. */
  lemma NoSourceIsAccepted(s: SourceSettings)
    requires !IsSet(s.localXlsxPath) && !IsSet(s.graphDriveId) && !IsSet(s.graphItemId)
    requires !IsSet(s.graphSiteId) && !IsSet(s.graphFilePath)
    ensures ValidateWorkbookSource(s) == Ok(s)
  {
  }

  /** The credentials matter only once a Graph reference is complete; without one they are ignored. */
  lemma CredentialsIgnoredWithoutReference(s: SourceSettings, tenant: Option<string>, client: Option<string>, secret: Option<string>)
    requires !HasDriveRef(s) && !HasSitePathRef(s)
    ensures ValidateWorkbookSource(s.(graphTenantId := tenant, graphClientId := client, graphClientSecret := secret))
         == if ValidateWorkbookSource(s).Ok? then Ok(s.(graphTenantId := tenant, graphClientId := client, graphClientSecret := secret))
            else ValidateWorkbookSource(s)
  {
  }

  // ---------------------------------------------------------------------------
  // Allowed origins.

  const DefaultAllowedOrigins := "http://localhost:5173"

  /** One comma-separated piece: surrounding whitespace trimmed, then every trailing `/` dropped. */
  function NormalizeOrigin(piece: string): string {
    RStripChar(Strip(piece), '/')
  }

  /** A normalised piece that is not empty starts with no whitespace and ends in something other than `/`. */
  lemma NormalizedOriginShape(piece: string)
    ensures var o := NormalizeOrigin(piece);
      o != [] ==> o[|o| - 1] != '/' && !IsSpace(o[0])
  {
    var u := Strip(piece);
    var o := RStripChar(u, '/');
    assert o != [] ==> o[0] == u[0];
  }

  /** Normalising a piece adds no character: a comma-free piece normalises to a comma-free origin. */
  lemma NormalizedOriginLacks(piece: string, c: char)
    requires c !in piece
    ensures c !in NormalizeOrigin(piece)
  {
    var t := LStrip(piece);
    var u := RStrip(t);
    var o := RStripChar(u, '/');
    forall k | 0 <= k < |o|
      ensures o[k] != c
    {
      assert o[k] == u[k] == t[k] == piece[|piece| - |t| + k];
    }
  }

  /** `[f(x) for x in xs]`. */
  function MapEach(f: string -> string, xs: seq<string>): (ys: seq<string>)
    ensures |ys| == |xs|
    ensures forall i :: 0 <= i < |xs| ==> ys[i] == f(xs[i])
  {
    seq(|xs|, i requires 0 <= i < |xs| => f(xs[i]))
  }

  /** Mapping distributes over concatenation. */
  lemma MapEachAppend(f: string -> string, xs: seq<string>, ys: seq<string>)
    ensures MapEach(f, xs + ys) == MapEach(f, xs) + MapEach(f, ys)
  {
    var l, r := MapEach(f, xs + ys), MapEach(f, xs) + MapEach(f, ys);
    forall i | 0 <= i < |l|
      ensures l[i] == r[i]
    {
      if i < |xs| {
        assert (xs + ys)[i] == xs[i];
      } else {
        assert (xs + ys)[i] == ys[i - |xs|];
      }
    }
  }

  /** Every piece normalised, empty results included, in the order of the pieces. */
  function NormalizedPieces(pieces: seq<string>): seq<string> {
    MapEach(NormalizeOrigin, pieces)
  }

  /** The strings of `xs` that are not empty, in order. */
  function NonEmpty(xs: seq<string>): (ys: seq<string>)
    decreases |xs|
  {
    if xs == [] then []
    else NonEmpty(xs[..|xs| - 1]) + (if xs[|xs| - 1] != "" then [xs[|xs| - 1]] else [])
  }

  /** `Settings.allowed_origins_list`. */
  function AllowedOrigins(setting: string): seq<string> {
    NonEmpty(NormalizedPieces(Split(setting, ',')))
  }

  /** `Settings.allowed_origins_list`: the loop over the comma-separated pieces. */
  method AllowedOriginsList(setting: string) returns (origins: seq<string>)
    ensures origins == AllowedOrigins(setting)
  {
    var pieces := Split(setting, ',');
    ghost var ns := NormalizedPieces(pieces);
    origins := [];
    for i := 0 to |pieces|
      invariant origins == NonEmpty(ns[..i])
    {
      var normalized := NormalizeOrigin(pieces[i]);
      NonEmptySnoc(ns, i);
      if normalized != "" {
        origins := origins + [normalized];
      }
    }
    assert ns[..|pieces|] == ns;
  }

  lemma NonEmptySnoc(xs: seq<string>, i: nat)
    requires i < |xs|
    ensures NonEmpty(xs[..i + 1]) == NonEmpty(xs[..i]) + (if xs[i] != "" then [xs[i]] else [])
  {
    assert xs[..i + 1][..i] == xs[..i];
  }

  /** Exactly the strings that are not empty are kept. */
  lemma {:induction false} NonEmptyMembers(xs: seq<string>, o: string)
    ensures o in NonEmpty(xs) <==> o != "" && o in xs
    decreases |xs|
  {
    if xs != [] {
      var n := |xs| - 1;
      NonEmptyMembers(xs[..n], o);
      assert xs == xs[..n] + [xs[n]];
    }
  }

  /** Keeping the non-empty strings distributes over concatenation. */
  lemma {:induction false} NonEmptyAppend(xs: seq<string>, ys: seq<string>)
    ensures NonEmpty(xs + ys) == NonEmpty(xs) + NonEmpty(ys)
    decreases |ys|
  {
    if ys == [] {
      assert xs + ys == xs;
    } else {
      var n := |ys| - 1;
      assert (xs + ys)[..|xs + ys| - 1] == xs + ys[..n];
      NonEmptyAppend(xs, ys[..n]);
      var keep: seq<string> := if ys[n] != "" then [ys[n]] else [];
      ConcatAssociative(NonEmpty(xs), NonEmpty(ys[..n]), keep);
    }
  }

  /** What the service promises about an allowed origin. */
  predicate WellFormedOrigin(o: string) {
    o != "" && o[|o| - 1] != '/' && !IsSpace(o[0]) && ',' !in o
  }

  /**
   * The origins kept from some pieces are the non-empty strings some piece normalises to; for
   * the pieces of the setting, these are the allowed origins.
   */
  lemma KeptOriginsMembers(pieces: seq<string>, o: string)
    ensures o in NonEmpty(NormalizedPieces(pieces))
        <==> o != "" && exists i :: 0 <= i < |pieces| && NormalizeOrigin(pieces[i]) == o
  {
    var ns := NormalizedPieces(pieces);
    NonEmptyMembers(ns, o);
    if o in ns {
      var k :| 0 <= k < |ns| && ns[k] == o;
      assert NormalizeOrigin(pieces[k]) == o;
    }
    forall i | 0 <= i < |pieces| && NormalizeOrigin(pieces[i]) == o
      ensures o in ns
    {
      assert ns[i] == o;
    }
  }

  /** Pieces holding no comma normalise to well-formed origins, wherever they came from. */
  lemma KeptOriginsWellFormed(pieces: seq<string>)
    requires forall i :: 0 <= i < |pieces| ==> ',' !in pieces[i]
    ensures forall o :: o in NonEmpty(NormalizedPieces(pieces)) ==> WellFormedOrigin(o)
  {
    var ns := NormalizedPieces(pieces);
    forall o | o in NonEmpty(ns)
      ensures WellFormedOrigin(o)
    {
      NonEmptyMembers(ns, o);
      var k :| 0 <= k < |ns| && ns[k] == o;
      NormalizedOriginShape(pieces[k]);
      NormalizedOriginLacks(pieces[k], ',');
    }
  }

  /**
   * Every allowed origin is non-empty, ends in something other than `/`, starts with no
   * whitespace and holds no comma.
   */
  lemma AllowedOriginsWellFormed(setting: string)
    ensures forall o :: o in AllowedOrigins(setting) ==> WellFormedOrigin(o)
  {
    KeptOriginsWellFormed(Split(setting, ','));
  }

  /** Splitting at a separator splits the pieces: `(a + "," + b).split(",") == a.split(",") + b.split(",")`. */
  lemma {:induction false} SplitConcat(a: string, sep: char, b: string)
    ensures Split(a + [sep] + b, sep) == Split(a, sep) + Split(b, sep)
    decreases |a|
  {
    var sb := Split(b, sep);
    if a == [] {
      assert [] + [sep] + b == [sep] + b;
      assert ([sep] + b)[1..] == b;
    } else {
      var whole := a + [sep] + b;
      assert whole[0] == a[0];
      assert whole[1..] == a[1..] + [sep] + b;
      SplitConcat(a[1..], sep, b);
      var ra := Split(a[1..], sep);
      var rest := ra + sb;
      assert Split(whole[1..], sep) == rest;
      if a[0] == sep {
        ConcatAssociative([[]], ra, sb);
      } else {
        assert rest[0] == ra[0];
        assert rest[1..] == ra[1..] + sb;
        ConcatAssociative([[a[0]] + ra[0]], ra[1..], sb);
      }
    }
  }

  /**
   * The origins are listed in the order the setting gives them: the origins of two settings
   * joined by a comma are those of the first, then those of the second.
   */
  lemma AllowedOriginsKeepOrder(a: string, b: string)
    ensures AllowedOrigins(a + "," + b) == AllowedOrigins(a) + AllowedOrigins(b)
  {
    var pa, pb := Split(a, ','), Split(b, ',');
    SplitConcat(a, ',', b);
    assert a + "," + b == a + [','] + b;
    MapEachAppend(NormalizeOrigin, pa, pb);
    NonEmptyAppend(NormalizedPieces(pa), NormalizedPieces(pb));
  }

  /** A setting naming one origin, already in normal form, allows exactly that origin. */
  lemma SingleOriginKept(s: string)
    requires ',' !in s && s != []
    requires !IsSpace(s[0]) && !IsSpace(s[|s| - 1]) && s[|s| - 1] != '/'
    ensures AllowedOrigins(s) == [s]
  {
    SplitWithoutSeparator(s, ',');
    StripOfTrimmed(s);
    assert NormalizedPieces([s]) == [s];
    assert NonEmpty([s]) == NonEmpty([]) + [s];
  }

  /** The default setting allows the local development server only. */
  lemma DefaultOrigins()
    ensures AllowedOrigins(DefaultAllowedOrigins) == [DefaultAllowedOrigins]
  {
    var s := DefaultAllowedOrigins;
    var first, last := s[0], s[20];
    assert |s| == 21 && first == 'h' && last == '3';
    assert !IsSpace(first) && !IsSpace(last);
    SingleOriginKept(s);
  }
}
