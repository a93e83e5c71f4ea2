/** What an installation records about its products, and the non-mutating
    inspection that classifies them. */
module ProductInspection {
  import opened Primitives
  import opened Wrappers

  datatype ProductStatus =
    | Absent
    | Current
    | ToolkitChanged
    | CodePulChanged
    | CompileInputsChanged
    | PayloadChanged
    | InputsMissing
    | Blocked
    | Broken

  datatype PayloadMode = NotApplicable | Online | Skipped

  const MINIMUM_EXECUTABLE_LENGTH: nat := 65536
  const MINIMUM_PAYLOAD_LENGTH: nat := 0x130

  /** The text of a computed hash. It is never blank. */
  type Digest = s: string | !IsBlank(s)
    witness "0"

  datatype Executable = Executable(length: nat, sha: Digest)

  datatype Fingerprint = Fingerprint(
    schemaVersion: int,
    profile: string,
    toolkit: string,
    dol: string,
    rel: string,
    executable: string,
    codePul: string,
    compileInputs: string,
    payloadMode: string,
    payloadSha: string,
    payloadLength: int)

  datatype LocalBuild = LocalBuild(
    schemaVersion: int,
    profile: string,
    dol: string,
    rel: string,
    codePul: Option<string>,
    payloadMode: Option<string>,
    payloadSha: Option<string>,
    payloadLength: Option<int>)

  /** One product directory. runtimeAssets is the identity of the support files
      copied into it, when they can be read at all. */
  datatype Product = Product(
    executable: Option<Executable>,
    fingerprint: Option<Fingerprint>,
    localBuild: Option<LocalBuild>,
    runtimeAssets: Option<Digest>)

  datatype InstallState = InstallState(
    schemaVersion: int,
    installDir: string,
    retroInstalled: bool,
    dol: string,
    rel: string,
    codePul: string,
    compileInputs: string,
    payloadMode: string,
    payloadSha: string,
    payloadLength: int,
    retroRoot: string)

  /** The state file: not there, there but not a state document, or read. */
  datatype StateFile = NoFile | Unreadable | StateRead(state: InstallState)

  datatype ToolkitState = ToolkitState(
    schemaVersion: int,
    toolkit: string,
    package: string,
    runtimeAssets: string)

  /** A signed payload file that passed validation. */
  datatype RawPayload = Payload(sha: Digest, length: nat)

  type Payload = p: RawPayload | p.length >= MINIMUM_PAYLOAD_LENGTH
    witness Payload("0", MINIMUM_PAYLOAD_LENGTH)

  datatype CompileInputs = CompileInputs(codePul: Digest, compileInputs: Digest)

  /** Everything the inspection and the repair read. */
  datatype Site = Site(
    root: string,
    hasToolkit: bool,
    toolkitState: Option<ToolkitState>,
    toolkitContent: Digest,
    workspaceAssets: Option<Digest>,
    stateFile: StateFile,
    base: Product,
    retro: Product,
    gameDol: Option<Digest>,
    gameRel: Option<Digest>,
    gameFst: bool,
    workspaceDol: Option<Digest>,
    workspaceRel: Option<Digest>,
    payloadCache: Option<Payload>,
    configuredRetroRoot: Option<string>)

  function FoldChar(c: char): char {
    if 'A' <= c <= 'Z' then c + 32 as char else c
  }

  function Fold(s: string): string {
    if s == "" then "" else [FoldChar(s[0])] + Fold(s[1..])
  }

  /** OrdinalIgnoreCase equality. */
  predicate Same(left: string, right: string) {
    Fold(left) == Fold(right)
  }

  predicate IsBlank(s: string) {
    s == "" || (IsWhitespace(s[0]) && IsBlank(s[1..]))
  }

  function ModeText(mode: PayloadMode): string {
    match mode
    case Online => "downloaded"
    case Skipped => "skipped"
    case NotApplicable => ""
  }

  predicate IsUsable(e: Option<Executable>) {
    e.Some? && e.value.length >= MINIMUM_EXECUTABLE_LENGTH
  }

  function ResolveToolkitFingerprint(s: Site): string {
    if
      && s.toolkitState.Some? && s.toolkitState.value.schemaVersion == 2
      && s.toolkitState.value.toolkit != "" && s.toolkitState.value.package != "" && s.hasToolkit
    then s.toolkitState.value.toolkit
    else ""
  }

  function ReadFingerprint(p: Product): Option<Fingerprint> {
    if p.fingerprint.Some? && p.fingerprint.value.schemaVersion == 1 then p.fingerprint else None
  }

  function ReadCurrentInstallState(s: Site): Option<InstallState> {
    if
      && s.stateFile.StateRead? && s.stateFile.state.schemaVersion == 1
      && !IsBlank(s.stateFile.state.installDir) && Same(s.stateFile.state.installDir, s.root)
    then Some(s.stateFile.state)
    else None
  }

  predicate IsPresent(s: Site) {
    !s.stateFile.NoFile? || s.base.executable.Some? || s.retro.executable.Some?
  }

  predicate HasUsableToolkit(s: Site, toolkit: string) {
    s.hasToolkit && !IsBlank(toolkit)
  }

  predicate ProvenanceHolds(s: Site, p: Product, profile: string, f: Fingerprint, state: InstallState) {
    && f.profile == profile && !IsBlank(f.dol) && !IsBlank(f.rel) && !IsBlank(f.executable)
    && IsUsable(p.executable) && Same(p.executable.value.sha, f.executable)
    && s.gameDol.Some? && s.gameRel.Some? && s.gameFst
    && Same(s.gameDol.value, f.dol) && Same(s.gameRel.value, f.rel)
    && Same(s.gameDol.value, state.dol) && Same(s.gameRel.value, state.rel)
    && LocalBuildHolds(p.localBuild, profile, f)
  }

  predicate LocalBuildHolds(local: Option<LocalBuild>, profile: string, f: Fingerprint) {
    && local.Some? && local.value.schemaVersion == 1 && local.value.profile == profile
    && Same(local.value.dol, f.dol) && Same(local.value.rel, f.rel)
    && (profile == "retro-rewind" ==>
          && local.value.payloadMode == Some(f.payloadMode)
          && Same(if local.value.payloadSha.Some? then local.value.payloadSha.value else "", f.payloadSha)
          && (if local.value.payloadLength.Some? then local.value.payloadLength.value else 0) == f.payloadLength)
  }

  predicate RuntimeAssetsMatch(s: Site, p: Product, toolkit: string) {
    && s.toolkitState.Some? && s.toolkitState.value.schemaVersion == 2
    && s.toolkitState.value.toolkit == toolkit && !IsBlank(s.toolkitState.value.runtimeAssets)
    && p.runtimeAssets.Some? && p.runtimeAssets.value == s.toolkitState.value.runtimeAssets
  }

  function CheckBaseCore(s: Site, toolkit: string): ProductStatus {
    if !IsUsable(s.base.executable) then Broken
    else if !HasUsableToolkit(s, toolkit) then Blocked
    else
      var state := ReadCurrentInstallState(s);
      var fingerprint := ReadFingerprint(s.base);
      if state.None? || fingerprint.None? then Blocked
      else if fingerprint.value.toolkit != toolkit then ToolkitChanged
      else if ProvenanceHolds(s, s.base, "base", fingerprint.value, state.value) then Current
      else Blocked
  }

  function CheckBase(s: Site, toolkit: string): ProductStatus {
    var status := CheckBaseCore(s, toolkit);
    if status == Current && !RuntimeAssetsMatch(s, s.base, toolkit) then Broken else status
  }

  /** The cached payload against what the product embeds; known carries an
      observation the operation has already made. */
  function CheckPayloadCache(s: Site, f: Fingerprint, state: InstallState, known: Option<bool>): ProductStatus {
    if IsBlank(f.payloadSha) || f.payloadLength <= 0 || IsBlank(state.payloadSha) || state.payloadLength <= 0 then
      Blocked
    else if known.Some? then
      if known.value then Current else PayloadChanged
    else if
      && s.payloadCache.Some? && Same(s.payloadCache.value.sha, f.payloadSha)
      && s.payloadCache.value.length == f.payloadLength
    then Current
    else PayloadChanged
  }

  function CheckRetroCore(
    s: Site, toolkit: string, canonical: Option<CompileInputs>, canonicalError: bool, known: Option<bool>): ProductStatus
  {
    var state := ReadCurrentInstallState(s);
    var recorded := state.Some? && state.value.retroInstalled;
    if (s.retro.executable.Some? || recorded) && !HasUsableToolkit(s, toolkit) then Blocked
    else if s.retro.executable.None? then
      if recorded then Broken else Absent
    else if canonicalError then InputsMissing
    else
      var fingerprint := ReadFingerprint(s.retro);
      if fingerprint.None? then Blocked
      else if fingerprint.value.toolkit != toolkit then ToolkitChanged
      else if state.None? then Blocked
      else CheckRetroInputs(s, fingerprint.value, state.value, canonical, known)
  }

  function CheckRetroInputs(
    s: Site, f: Fingerprint, state: InstallState, canonical: Option<CompileInputs>, known: Option<bool>): ProductStatus
  {
    if !ProvenanceHolds(s, s.retro, "retro-rewind", f, state) then Blocked
    else if
      || IsBlank(f.codePul) || IsBlank(f.compileInputs) || IsBlank(state.codePul) || IsBlank(state.compileInputs)
      || !Same(state.codePul, f.codePul) || !Same(state.compileInputs, f.compileInputs)
    then Blocked
    else if canonical.Some? && !Same(canonical.value.codePul, f.codePul) then CodePulChanged
    else if canonical.Some? && !Same(canonical.value.compileInputs, f.compileInputs) then CompileInputsChanged
    else if f.payloadMode == "downloaded" then CheckPayloadCache(s, f, state, known)
    else Current
  }

  function CheckRetroRewind(
    s: Site, toolkit: string, canonical: Option<CompileInputs>, canonicalError: bool, known: Option<bool>): ProductStatus
  {
    var status := CheckRetroCore(s, toolkit, canonical, canonicalError, known);
    if status == Current && !RuntimeAssetsMatch(s, s.retro, toolkit) then Broken else status
  }

  predicate ActionRequired(status: ProductStatus) {
    status != Current && status != Absent
  }

  function ResolvePayloadMode(s: Site): PayloadMode {
    var fingerprint := ReadFingerprint(s.retro);
    var recorded :=
      if fingerprint.Some? && fingerprint.value.payloadMode != "" then fingerprint.value.payloadMode
      else if s.stateFile.StateRead? then s.stateFile.state.payloadMode
      else "";
    if recorded == "downloaded" then Online
    else if recorded == "skipped" then Skipped
    else NotApplicable
  }

  predicate MatchesPayloadSnapshot(s: Site, payload: Payload) {
    var fingerprint := ReadFingerprint(s.retro);
    var state := ReadCurrentInstallState(s);
    && fingerprint.Some? && fingerprint.value.payloadMode == "downloaded"
    && state.Some? && state.value.payloadMode == "downloaded"
    && fingerprint.value.payloadSha == payload.sha && state.value.payloadSha == payload.sha
  }

  predicate CachedPayloadMatches(s: Site, payload: Payload) {
    s.payloadCache == Some(payload)
  }

  predicate ProductUsesGameInputs(p: Product, dol: string, rel: string) {
    var fingerprint := ReadFingerprint(p);
    fingerprint.Some? && Same(fingerprint.value.dol, dol) && Same(fingerprint.value.rel, rel)
  }
}
