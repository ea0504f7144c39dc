/**
 * Workbook identity strings. They tell the media cache whether its files were produced from the
 * workbook that is current now: `<path>|missing`, or `<path>|<mtime ns>|<size>`, and in graph
 * mode also `|sig:<signature>` when a content signature of the downloaded file is available.
 *
 * The file system's answers (whether the path is a regular file, its stat) and the content
 * signature (a truncated SHA-1 of the file's first 64 KiB) are inputs.
 */
module Identity {
  import opened Wrappers
  import opened Text

  datatype FileStat = FileStat(mtimeNs: int, size: nat)

  /** What the file system reports for a path: not an existing regular file, or a file with its stat. */
  datatype PathState = NotAFile | RegularFile(stat: FileStat)

  const GraphMode := "graph"

  /** The text after `<path>|` in a path identity. */
  function StatText(st: PathState): string {
    match st
    case NotAFile => "missing"
    case RegularFile(s) => FormatInt(s.mtimeNs, 10) + "|" + FormatNat(s.size, 10)
  }

  /** `_workbook_identity_from_path`. */
  function IdentityFromPath(path: string, st: PathState): (id: string)
    ensures path + "|" <= id
  {
    path + "|" + StatText(st)
  }

  /** `_graph_content_signature`: nothing for a path that is not a regular file, else the oracle's answer. */
  function GraphSignature(st: PathState, signature: Option<string>): Option<string> {
    if st.NotAFile? then None else signature
  }

  /** `_compute_workbook_identity`: the path identity, with the content signature appended in graph mode. */
  function ComputeWorkbookIdentity(mode: string, path: string, st: PathState, signature: Option<string>): (id: string)
    ensures IdentityFromPath(path, st) <= id
    ensures mode != GraphMode ==> id == IdentityFromPath(path, st)
  {
    var base := IdentityFromPath(path, st);
    if mode != GraphMode then base
    else
      var sig := GraphSignature(st, signature);
      if sig.None? || sig.value == "" then base else base + "|sig:" + sig.value
  }

  /** Where `peek_workbook_identity` looks: the graph download path or the configured local path. */
  datatype IdentitySources = IdentitySources(
    mode: string,
    graphPath: string, graphState: PathState, graphSignature: Option<string>,
    localPath: Option<string>, localState: PathState)

  const LocalMissing := "local:missing"

  /** `peek_workbook_identity`: the identity of the current workbook without fetching it. */
  function PeekWorkbookIdentity(src: IdentitySources): (id: string)
    ensures src.mode != GraphMode && src.localPath.None? ==> id == LocalMissing
    ensures src.mode != GraphMode && src.localPath.Some? ==> id == IdentityFromPath(src.localPath.value, src.localState)
    ensures src.mode == GraphMode ==> IdentityFromPath(src.graphPath, src.graphState) <= id
    ensures src.mode == GraphMode && (src.graphState.NotAFile? || src.graphSignature.None?) ==>
      id == IdentityFromPath(src.graphPath, src.graphState)
  {
    if src.mode == GraphMode then ComputeWorkbookIdentity(src.mode, src.graphPath, src.graphState, src.graphSignature)
    else if src.localPath.None? then LocalMissing
    else ComputeWorkbookIdentity(src.mode, src.localPath.value, src.localState, None)
  }

  /** `identity.split("|", 1)[0]`: the workbook source a cached identity names. */
  function SourceOfIdentity(id: string): string {
    Split(id, '|')[0]
  }

  lemma StatTextNoBar(s: FileStat)
    ensures '|' !in FormatInt(s.mtimeNs, 10) && '|' !in FormatNat(s.size, 10)
  {
    var m := FormatInt(s.mtimeNs, 10);
    var z := FormatNat(s.size, 10);
    assert forall k :: 0 <= k < |m| ==> m[k] != '|';
    assert forall k :: 0 <= k < |z| ==> z[k] != '|';
  }

  /** The identity names the workbook path as its source when the path holds no `|`. */
  lemma SourceOfComputedIdentity(mode: string, path: string, st: PathState, signature: Option<string>)
    requires '|' !in path
    ensures SourceOfIdentity(ComputeWorkbookIdentity(mode, path, st, signature)) == path
  {
    var id := ComputeWorkbookIdentity(mode, path, st, signature);
    assert id == path + "|" + id[|path| + 1..];
    SplitAtFirst(path, '|', id[|path| + 1..]);
  }

  /** The same path with a different stat, or present instead of missing, gets a different identity. */
  lemma IdentityFromPathInjective(path: string, st1: PathState, st2: PathState)
    requires IdentityFromPath(path, st1) == IdentityFromPath(path, st2)
    ensures st1 == st2
  {
    var t1, t2 := StatText(st1), StatText(st2);
    assert t1 == IdentityFromPath(path, st1)[|path| + 1..] == t2;
    // "missing" is the only stat text starting with a letter
    StatTextFirstChar(st1);
    StatTextFirstChar(st2);
    if st1.RegularFile? {
      var s1, s2 := st1.stat, st2.stat;
      StatTextNoBar(s1);
      StatTextNoBar(s2);
      SeparatorSplitsUniquely(FormatInt(s1.mtimeNs, 10), FormatNat(s1.size, 10),
                              FormatInt(s2.mtimeNs, 10), FormatNat(s2.size, 10), '|');
      FormatIntInjective(s1.mtimeNs, s2.mtimeNs, 10);
      FormatInjective(s1.size, s2.size, 10);
    }
  }

  lemma StatTextFirstChar(st: PathState)
    ensures |StatText(st)| > 0 && (StatText(st)[0] == 'm' <==> st.NotAFile?)
  {
    if st.RegularFile? {
      var m := FormatInt(st.stat.mtimeNs, 10);
      assert StatText(st)[0] == m[0];
    }
  }

  /** Outside graph mode the identity ignores the content signature. */
  lemma LocalIdentityIgnoresSignature(mode: string, path: string, st: PathState, sig1: Option<string>, sig2: Option<string>)
    requires mode != GraphMode
    ensures ComputeWorkbookIdentity(mode, path, st, sig1) == ComputeWorkbookIdentity(mode, path, st, sig2)
  {
  }

  /** In graph mode, a non-empty signature of an existing file makes the identity strictly longer than the path identity. */
  lemma GraphSignatureExtends(path: string, s: FileStat, sig: string)
    requires sig != ""
    ensures ComputeWorkbookIdentity(GraphMode, path, RegularFile(s), Some(sig))
         == IdentityFromPath(path, RegularFile(s)) + "|sig:" + sig
    ensures |ComputeWorkbookIdentity(GraphMode, path, RegularFile(s), Some(sig))| > |IdentityFromPath(path, RegularFile(s))|
  {
  }

  /** A changed signature changes a graph-mode identity. */
  lemma GraphSignatureDistinguishes(path: string, s: FileStat, sig1: string, sig2: string)
    requires sig1 != "" && sig2 != "" && sig1 != sig2
    ensures ComputeWorkbookIdentity(GraphMode, path, RegularFile(s), Some(sig1))
         != ComputeWorkbookIdentity(GraphMode, path, RegularFile(s), Some(sig2))
  {
    var base := IdentityFromPath(path, RegularFile(s)) + "|sig:";
    assert (base + sig1)[|base|..] == sig1;
    assert (base + sig2)[|base|..] == sig2;
  }
}
