/** Reconciling the installed products with the inputs they should be built from. */
module ProductRepair {
  import opened ProductInspection
  import opened ProductStatuses
  import opened Wrappers

  datatype RepairError =
    | NotInstalled
    | ToolkitMissing
    | ProductsRunning
    | HalfExpectedHashes
    | ToolkitUnidentified
    | PayloadUnavailable
    | PayloadTimedOut
    | CanonicalRootMissing
    | RetroNeedsItsFolder
    | ToolkitModified
    | GameInputsUnusable
    | BuildFailed
    | PayloadNotConsumed
    | RuntimeAssetsUnusable
    | PayloadNotStaged

  datatype Options = Options(
    expectedDol: string,
    expectedRel: string,
    canonicalRoot: Option<string>,
    productsRunning: bool)

  /** How the download of the payload ends. A timeout is not among the failures
      the installed payload can stand in for. */
  datatype Download = Downloaded(payload: Payload) | Unavailable | TimedOut

  /** What the build script leaves in an output directory. */
  datatype Output = Output(
    executable: Option<Executable>,
    localBuild: Option<LocalBuild>,
    runtimeAssets: Option<Digest>)

  /** What the script would produce for each product, if it succeeds. */
  datatype Builds = Builds(base: Option<Output>, retro: Option<Output>)

  datatype Decisions = Decisions(
    rebuildBase: bool,
    rebuildRetro: bool,
    syncPayload: bool,
    syncBaseAssets: bool,
    syncRetroAssets: bool)

  datatype Reconciliation =
    | Threw(error: RepairError, left: Site)
    | Returned(committed: bool, site: Site, decisions: Decisions, payload: Option<Payload>, cacheVerified: Option<bool>)

  datatype PayloadAction = KeepPayload | PublishCacheOnly | RebuildForPayload

  predicate RequiresCompilation(status: ProductStatus) {
    || status == ToolkitChanged || status == CodePulChanged || status == CompileInputsChanged
    || status == InputsMissing || status == Blocked || status == Broken
  }

  function PlanPayload(productMatches: bool, cacheMatches: bool): PayloadAction {
    if !productMatches then RebuildForPayload
    else if cacheMatches then KeepPayload
    else PublishCacheOnly
  }

  predicate HasExpectations(o: Options) {
    !IsBlank(o.expectedDol) && !IsBlank(o.expectedRel)
  }

  predicate BaseInputDrift(s: Site, o: Options) {
    HasExpectations(o) && s.base.executable.Some? && !ProductUsesGameInputs(s.base, o.expectedDol, o.expectedRel)
  }

  predicate RetroInputDrift(s: Site, o: Options) {
    HasExpectations(o) && s.retro.executable.Some? && !ProductUsesGameInputs(s.retro, o.expectedDol, o.expectedRel)
  }

  predicate RootRecorded(s: Site, root: string) {
    && s.configuredRetroRoot.Some? && Same(s.configuredRetroRoot.value, root)
    && s.stateFile.StateRead? && Same(s.stateFile.state.retroRoot, root)
  }

  /** The payload of an installation whose download failed: what the product was
      built with, if the cache still holds exactly that. */
  function RecoverInstalledPayload(s: Site): Option<Payload> {
    var f := ReadFingerprint(s.retro);
    if
      && f.Some? && f.value.payloadMode == "downloaded"
      && s.stateFile.StateRead? && s.stateFile.state.payloadMode == "downloaded"
      && !IsBlank(f.value.payloadSha) && f.value.payloadSha == s.stateFile.state.payloadSha
      && f.value.payloadLength > 0
      && s.payloadCache.Some?
      && s.payloadCache.value.length == f.value.payloadLength && s.payloadCache.value.sha == f.value.payloadSha
    then s.payloadCache
    else None
  }

  function ObtainPayload(s: Site, mode: PayloadMode, download: Download): Option<Payload> {
    if mode != Online then None
    else match download
      case Downloaded(p) => Some(p)
      case Unavailable => RecoverInstalledPayload(s)
      case TimedOut => None
  }

  /** BuildAsync's checks on what the script produced. */
  predicate BuildAccepted(o: Option<Output>) {
    o.Some? && IsUsable(o.value.executable) && o.value.localBuild.Some?
  }

  /** WriteFingerprint's check that the Retro Rewind build consumed these inputs. */
  predicate RetroBuildConsumed(
    local: LocalBuild, dol: string, rel: string, codePul: string, mode: PayloadMode, payload: Option<Payload>)
  {
    && local.schemaVersion == 1 && Same(local.dol, dol) && Same(local.rel, rel)
    && local.codePul.Some? && Same(local.codePul.value, codePul)
    && local.payloadMode == Some(if mode == Online then "downloaded" else "skipped")
    && (if mode == Online && payload.Some? then
          local.payloadSha.Some? && Same(local.payloadSha.value, payload.value.sha)
        else local.payloadSha.None?)
    && (if local.payloadLength.Some? then local.payloadLength.value else 0) ==
       (if mode == Online && payload.Some? then payload.value.length else 0)
  }

  function BaseFingerprint(toolkit: string, dol: Digest, rel: Digest, executable: Digest): Fingerprint {
    Fingerprint(1, "base", toolkit, dol, rel, executable, "", "", "", "", 0)
  }

  function RetroFingerprint(
    toolkit: string, dol: Digest, rel: Digest, executable: Digest,
    inputs: CompileInputs, mode: PayloadMode, payload: Option<Payload>): Fingerprint
  {
    Fingerprint(1, "retro-rewind", toolkit, dol, rel, executable, inputs.codePul, inputs.compileInputs, ModeText(mode),
                if payload.Some? then payload.value.sha else "",
                if payload.Some? then payload.value.length else 0)
  }

  function FreshInstallState(root: string): InstallState {
    InstallState(1, root, false, "", "", "", "", "", "", 0, "")
  }

  /** BuildUpdatedInstallState; mode is given when the Retro Rewind product was rebuilt. */
  function UpdatedInstallState(
    s: Site, inputs: Option<CompileInputs>, canonicalRoot: Option<string>,
    mode: Option<PayloadMode>, payload: Option<Payload>, o: Options): InstallState
  {
    var read := if s.stateFile.StateRead? then s.stateFile.state else FreshInstallState(s.root);
    var located := read.(
      installDir := s.root,
      schemaVersion := 1,
      dol := if IsBlank(o.expectedDol) then read.dol else o.expectedDol,
      rel := if IsBlank(o.expectedRel) then read.rel else o.expectedRel,
      retroInstalled := inputs.Some? || s.retro.executable.Some?);
    var compiled :=
      if inputs.Some? then located.(codePul := inputs.value.codePul, compileInputs := inputs.value.compileInputs)
      else located;
    var rooted := if canonicalRoot.Some? then compiled.(retroRoot := canonicalRoot.value) else compiled;
    if mode.Some? then
      if mode.value == Online && payload.Some? then
        rooted.(payloadMode := "downloaded", payloadSha := payload.value.sha, payloadLength := payload.value.length)
      else rooted.(payloadMode := "skipped", payloadSha := "", payloadLength := 0)
    else
      var f := ReadFingerprint(s.retro);
      if f.Some? && !IsBlank(f.value.payloadMode) then
        rooted.(payloadMode := f.value.payloadMode, payloadSha := f.value.payloadSha, payloadLength := f.value.payloadLength)
      else rooted
  }

  /** The game data is what was asked for, or what the installation recorded. */
  predicate InputsUsable(s: Site, o: Options) {
    var recorded := IsBlank(o.expectedDol);
    && (recorded ==> s.stateFile.StateRead? && s.stateFile.state.schemaVersion == 1)
    && var dol := if recorded then s.stateFile.state.dol else o.expectedDol;
       var rel := if recorded then s.stateFile.state.rel else o.expectedRel;
       && !IsBlank(dol) && !IsBlank(rel)
       && s.gameDol.Some? && Same(s.gameDol.value, dol) && s.gameRel.Some? && Same(s.gameRel.value, rel)
  }

  /** The game data verified against the wanted hashes, and copied to the
      translator's inputs where those differ. */
  method RefreshTranslationAssets(s: Site, o: Options) returns (ok: bool, left: Site)
    requires IsBlank(o.expectedDol) == IsBlank(o.expectedRel)
    ensures left == s.(workspaceDol := left.workspaceDol, workspaceRel := left.workspaceRel)
    ensures ok <==> InputsUsable(s, o)
    ensures ok ==>
      && s.gameDol.Some? && s.gameRel.Some? && left.workspaceDol.Some? && left.workspaceRel.Some?
      && Same(left.workspaceDol.value, s.gameDol.value) && Same(left.workspaceRel.value, s.gameRel.value)
      && (IsBlank(o.expectedDol) ==>
            && s.stateFile.StateRead? && s.stateFile.state.schemaVersion == 1
            && Same(s.gameDol.value, s.stateFile.state.dol) && Same(s.gameRel.value, s.stateFile.state.rel))
      && (!IsBlank(o.expectedDol) ==>
            Same(s.gameDol.value, o.expectedDol) && Same(s.gameRel.value, o.expectedRel))
  {
    var dol, rel := o.expectedDol, o.expectedRel;
    left := s;
    if IsBlank(dol) && IsBlank(rel) {
      if !s.stateFile.StateRead? || s.stateFile.state.schemaVersion != 1 {
        return false, left;
      }
      dol, rel := s.stateFile.state.dol, s.stateFile.state.rel;
    }
    if IsBlank(dol) || IsBlank(rel) {
      return false, left;
    }
    if s.gameDol.None? || !Same(s.gameDol.value, dol) {
      return false, left;
    }
    if s.workspaceDol.None? || !Same(s.workspaceDol.value, dol) {
      left := left.(workspaceDol := s.gameDol);
    }
    if s.gameRel.None? || !Same(s.gameRel.value, rel) {
      return false, left;
    }
    if s.workspaceRel.None? || !Same(s.workspaceRel.value, rel) {
      left := left.(workspaceRel := s.gameRel);
    }
    ok := true;
  }

  /** The products as rebuilt: what the script left plus the recorded fingerprint. */
  datatype Rebuilt = Rebuilt(base: Option<Product>, retro: Option<Product>)

  function RebuiltProduct(o: Output, f: Fingerprint): Product {
    Product(o.executable, Some(f), o.localBuild, o.runtimeAssets)
  }

  /** The site after one publication, which is a single transaction. */
  function Published(
    s: Site, rebuilt: Rebuilt, d: Decisions, inputs: Option<CompileInputs>, mode: PayloadMode,
    payload: Option<Payload>, o: Options): Site
  {
    var state :=
      if rebuilt.base.Some? || rebuilt.retro.Some? || inputs.Some? then
        StateRead(UpdatedInstallState(s, inputs, if inputs.Some? then o.canonicalRoot else None,
                                      if rebuilt.retro.Some? then Some(mode) else None,
                                      if rebuilt.retro.Some? then payload else None, o))
      else s.stateFile;
    s.(
      base :=
        if rebuilt.base.Some? then rebuilt.base.value
        else if d.syncBaseAssets then s.base.(runtimeAssets := s.workspaceAssets)
        else s.base,
      retro :=
        if rebuilt.retro.Some? then rebuilt.retro.value
        else if d.syncRetroAssets then s.retro.(runtimeAssets := s.workspaceAssets)
        else s.retro,
      payloadCache :=
        if d.syncPayload then payload
        else if rebuilt.retro.Some? && mode == Skipped then None
        else s.payloadCache,
      stateFile := state,
      configuredRetroRoot := if inputs.Some? then o.canonicalRoot else s.configuredRetroRoot)
  }

  /** What a build has to leave beyond what is checked after it, for its product
      to be recognised as current. */
  predicate OutputRecognised(s: Site, o: Output, profile: string) {
    && o.localBuild.Some? && o.localBuild.value.schemaVersion == 1 && o.localBuild.value.profile == profile
    && s.gameDol.Some? && s.gameRel.Some?
    && Same(o.localBuild.value.dol, s.gameDol.value) && Same(o.localBuild.value.rel, s.gameRel.value)
    && s.toolkitState.Some? && !IsBlank(s.toolkitState.value.runtimeAssets)
    && o.runtimeAssets.Some? && o.runtimeAssets.value == s.toolkitState.value.runtimeAssets
  }

  /** The exact condition under which a repair leaves both products current. */
  predicate Recognisable(s: Site, d: Decisions, builds: Builds, payload: Option<Payload>) {
    && s.gameFst
    && (d.rebuildBase ==> builds.base.Some? && OutputRecognised(s, builds.base.value, "base"))
    && (d.rebuildRetro ==> builds.retro.Some? && OutputRecognised(s, builds.retro.value, "retro-rewind"))
    && (!d.rebuildRetro ==> PayloadLengthAgrees(s, payload))
  }

  predicate BothCurrent(s: Site, toolkit: string, inputs: CompileInputs) {
    && CheckBase(s, toolkit) == Current
    && CheckRetroRewind(s, toolkit, Some(inputs), false, None) == Current
  }

  function Observation(s: Site, payload: Option<Payload>): Option<bool> {
    if payload.None? then None else Some(CachedPayloadMatches(s, payload.value))
  }

  /** The installation is what its inputs ask for, as far as a repair can tell. */
  predicate NothingToDo(
    s: Site, toolkit: string, inputs: CompileInputs, root: string, mode: PayloadMode, o: Options, payload: Option<Payload>)
  {
    && CheckBase(s, toolkit) == Current
    && CheckRetroRewind(s, toolkit, Some(inputs), false, Observation(s, payload)) == Current
    && !BaseInputDrift(s, o) && !RetroInputDrift(s, o)
    && (payload.Some? ==> MatchesPayloadSnapshot(s, payload.value) && CachedPayloadMatches(s, payload.value))
    && (ResolvePayloadMode(s) == NotApplicable || ResolvePayloadMode(s) == mode)
    && RootRecorded(s, root)
  }

  /** What a repair has to rebuild and republish, and nothing else. */
  predicate Decided(
    s: Site, toolkit: string, snapshot: Option<CompileInputs>, mode: PayloadMode, o: Options,
    payload: Option<Payload>, d: Decisions)
  {
    var retroStatus := CheckRetroCore(s, toolkit, snapshot, false, Observation(s, payload));
    && (d.rebuildBase <==> CheckBaseCore(s, toolkit) != Current || BaseInputDrift(s, o))
    && (d.rebuildRetro <==>
          && snapshot.Some?
          && (|| RetroInputDrift(s, o)
              || (retroStatus != Current && retroStatus != PayloadChanged)
              || (payload.Some? && !MatchesPayloadSnapshot(s, payload.value))
              || (s.retro.executable.Some? && ResolvePayloadMode(s) != NotApplicable && ResolvePayloadMode(s) != mode)))
    && (d.syncPayload <==>
          && mode == Online && payload.Some?
          && (d.rebuildRetro || !CachedPayloadMatches(s, payload.value)))
    && (d.syncBaseAssets <==>
          !d.rebuildBase && s.base.executable.Some? && !RuntimeAssetsMatch(s, s.base, toolkit))
    && (d.syncRetroAssets <==>
          !d.rebuildRetro && s.retro.executable.Some? && !RuntimeAssetsMatch(s, s.retro, toolkit))
  }

  /** The state file of a site agrees with its game data. */
  predicate StateFits(s: Site) {
    var state := ReadCurrentInstallState(s);
    && state.Some? && s.gameDol.Some? && s.gameRel.Some?
    && Same(s.gameDol.value, state.value.dol) && Same(s.gameRel.value, state.value.rel)
  }

  predicate InputsRecorded(s: Site, inputs: CompileInputs) {
    var state := ReadCurrentInstallState(s);
    && state.Some? && state.value.codePul == inputs.codePul && state.value.compileInputs == inputs.compileInputs
  }

  /** A base product published with its fingerprint is current exactly when the
      build is recognised and the disc data is complete. */
  lemma RebuiltBase(site: Site, toolkit: string, output: Output, dol: Digest, rel: Digest)
    requires site.hasToolkit && !IsBlank(toolkit) && toolkit == ResolveToolkitFingerprint(site)
    requires StateFits(site) && BuildAccepted(Some(output))
    requires Same(dol, site.gameDol.value) && Same(rel, site.gameRel.value)
    requires site.base == RebuiltProduct(output, BaseFingerprint(toolkit, dol, rel, output.executable.value.sha))
    ensures CheckBase(site, toolkit) == Current <==> site.gameFst && OutputRecognised(site, output, "base")
  {
  }

  lemma RebuiltRetro(
    site: Site, toolkit: string, inputs: CompileInputs, mode: PayloadMode, payload: Option<Payload>,
    output: Output, dol: Digest, rel: Digest)
    requires site.hasToolkit && !IsBlank(toolkit) && toolkit == ResolveToolkitFingerprint(site)
    requires StateFits(site) && InputsRecorded(site, inputs) && BuildAccepted(Some(output))
    requires Same(dol, site.gameDol.value) && Same(rel, site.gameRel.value)
    requires site.retro == RebuiltProduct(output, RetroFingerprint(toolkit, dol, rel, output.executable.value.sha,
                                                                   inputs, mode, payload))
    requires RetroBuildConsumed(output.localBuild.value, dol, rel, inputs.codePul, mode, payload)
    requires mode != NotApplicable && (mode == Online <==> payload.Some?)
    requires mode == Online ==>
      && site.payloadCache == payload
      && ReadCurrentInstallState(site).value.payloadSha == payload.value.sha
      && ReadCurrentInstallState(site).value.payloadLength == payload.value.length
    ensures CheckRetroRewind(site, toolkit, Some(inputs), false, None) == Current <==>
      site.gameFst && OutputRecognised(site, output, "retro-rewind")
  {
  }

  /** A base product that was current stays so when only the state file and its
      copied support files change. */
  lemma KeptBase(s: Site, site: Site, toolkit: string)
    requires CheckBaseCore(s, toolkit) == Current && StateFits(site)
    requires site.hasToolkit == s.hasToolkit && site.toolkitState == s.toolkitState
    requires site.base == s.base.(runtimeAssets := site.base.runtimeAssets)
    requires site.gameDol == s.gameDol && site.gameRel == s.gameRel && site.gameFst == s.gameFst
    ensures CheckBase(site, toolkit) == Current <==> RuntimeAssetsMatch(site, site.base, toolkit)
  {
  }

  lemma KeptRetro(
    s: Site, site: Site, toolkit: string, inputs: CompileInputs, known: Option<bool>)
    requires CheckRetroCore(s, toolkit, Some(inputs), false, known) in {Current, PayloadChanged}
    requires StateFits(site) && InputsRecorded(site, inputs)
    requires site.hasToolkit == s.hasToolkit && site.toolkitState == s.toolkitState
    requires site.retro == s.retro.(runtimeAssets := site.retro.runtimeAssets)
    requires site.gameDol == s.gameDol && site.gameRel == s.gameRel && site.gameFst == s.gameFst
    requires s.retro.fingerprint.Some?
    requires s.retro.fingerprint.value.payloadMode == "downloaded" ==>
      && ReadCurrentInstallState(site).value.payloadSha == s.retro.fingerprint.value.payloadSha
      && ReadCurrentInstallState(site).value.payloadLength == s.retro.fingerprint.value.payloadLength
    ensures CheckRetroRewind(site, toolkit, Some(inputs), false, None) == Current <==>
      && RuntimeAssetsMatch(site, site.retro, toolkit)
      && (s.retro.fingerprint.value.payloadMode == "downloaded" ==>
            && site.payloadCache.Some? && Same(site.payloadCache.value.sha, s.retro.fingerprint.value.payloadSha)
            && site.payloadCache.value.length == s.retro.fingerprint.value.payloadLength)
  {
  }

  /** A decided repair has come as far as its publication. */
  predicate ReadyToPublish(
    s: Site, left: Site, d: Decisions, toolkit: string, snapshot: Option<CompileInputs>, mode: PayloadMode, o: Options,
    payload: Option<Payload>, builds: Builds, rebuilt: Rebuilt)
  {
    && left == s.(workspaceDol := left.workspaceDol, workspaceRel := left.workspaceRel)
    && s.hasToolkit && !IsBlank(toolkit) && toolkit == ResolveToolkitFingerprint(s) && !IsBlank(s.root)
    && IsBlank(o.expectedDol) == IsBlank(o.expectedRel)
    && (mode == Online <==> payload.Some?)
    && Decided(s, toolkit, snapshot, mode, o, payload, d)
    && (if d.rebuildBase || d.rebuildRetro then
          RebuiltAs(s, left, d, toolkit, snapshot, mode, o, payload, builds, rebuilt)
        else rebuilt == Rebuilt(None, None))
    && (d.syncBaseAssets || d.syncRetroAssets ==> AssetsSyncable(s, toolkit))
  }

  predicate AssetsSyncable(s: Site, toolkit: string) {
    && s.toolkitState.Some? && s.toolkitState.value.schemaVersion == 2
    && s.toolkitState.value.toolkit == toolkit && !IsBlank(s.toolkitState.value.runtimeAssets)
    && s.workspaceAssets.Some? && s.workspaceAssets.value == s.toolkitState.value.runtimeAssets
  }

  /** The hashes an updated state file would record are those of the game data. */
  predicate HashesFit(s: Site, o: Options) {
    && s.gameDol.Some? && s.gameRel.Some?
    && if IsBlank(o.expectedDol) then
         && s.stateFile.StateRead?
         && Same(s.gameDol.value, s.stateFile.state.dol) && Same(s.gameRel.value, s.stateFile.state.rel)
       else Same(s.gameDol.value, o.expectedDol) && Same(s.gameRel.value, o.expectedRel)
  }

  lemma PublishedStateFits(
    s: Site, rebuilt: Rebuilt, d: Decisions, inputs: Option<CompileInputs>, mode: PayloadMode, payload: Option<Payload>,
    o: Options)
    requires !IsBlank(s.root) && HashesFit(s, o) && IsBlank(o.expectedDol) == IsBlank(o.expectedRel)
    requires inputs.Some? ==> o.canonicalRoot.Some?
    requires rebuilt.base.Some? || rebuilt.retro.Some? || inputs.Some?
    ensures var site := Published(s, rebuilt, d, inputs, mode, payload, o);
      && StateFits(site)
      && (inputs.Some? ==> InputsRecorded(site, inputs.value) && RootRecorded(site, o.canonicalRoot.value))
  {
  }

  /** A base product that stays was current, and made from the data asked for. */
  lemma KeptHashesFit(
    s: Site, d: Decisions, toolkit: string, snapshot: Option<CompileInputs>, mode: PayloadMode, o: Options,
    payload: Option<Payload>)
    requires IsBlank(o.expectedDol) == IsBlank(o.expectedRel)
    requires Decided(s, toolkit, snapshot, mode, o, payload, d) && !d.rebuildBase
    ensures HashesFit(s, o) && StateFits(s)
  {
  }

  lemma RebuiltHashesFit(
    s: Site, left: Site, d: Decisions, toolkit: string, snapshot: Option<CompileInputs>, mode: PayloadMode, o: Options,
    payload: Option<Payload>, builds: Builds, rebuilt: Rebuilt)
    requires left == s.(workspaceDol := left.workspaceDol, workspaceRel := left.workspaceRel)
    requires RebuiltAs(s, left, d, toolkit, snapshot, mode, o, payload, builds, rebuilt)
    ensures HashesFit(left, o)
  {
  }

  lemma StateFitsAfterRebuild(
    s: Site, left: Site, d: Decisions, toolkit: string, snapshot: Option<CompileInputs>, mode: PayloadMode, o: Options,
    payload: Option<Payload>, builds: Builds, rebuilt: Rebuilt)
    requires (snapshot.None? <==> mode == NotApplicable) && (snapshot.Some? ==> o.canonicalRoot.Some?)
    requires ReadyToPublish(s, left, d, toolkit, snapshot, mode, o, payload, builds, rebuilt)
    requires d.rebuildBase || d.rebuildRetro
    ensures var site := Published(left, rebuilt, d, snapshot, mode, payload, o);
      && StateFits(site)
      && (snapshot.Some? ==> InputsRecorded(site, snapshot.value) && RootRecorded(site, o.canonicalRoot.value))
  {
    RebuiltHashesFit(s, left, d, toolkit, snapshot, mode, o, payload, builds, rebuilt);
    PublishedStateFits(left, rebuilt, d, snapshot, mode, payload, o);
  }

  lemma StateFitsWithoutRebuild(
    s: Site, left: Site, d: Decisions, toolkit: string, snapshot: Option<CompileInputs>, mode: PayloadMode, o: Options,
    payload: Option<Payload>, builds: Builds, rebuilt: Rebuilt)
    requires (snapshot.None? <==> mode == NotApplicable) && (snapshot.Some? ==> o.canonicalRoot.Some?)
    requires ReadyToPublish(s, left, d, toolkit, snapshot, mode, o, payload, builds, rebuilt)
    requires !d.rebuildBase && !d.rebuildRetro
    ensures var site := Published(left, rebuilt, d, snapshot, mode, payload, o);
      && StateFits(site)
      && (snapshot.Some? ==> InputsRecorded(site, snapshot.value) && RootRecorded(site, o.canonicalRoot.value))
  {
    KeptHashesFit(s, d, toolkit, snapshot, mode, o, payload);
    if snapshot.Some? {
      PublishedStateFits(left, rebuilt, d, snapshot, mode, payload, o);
    }
  }

  lemma StateFitsAfter(
    s: Site, left: Site, d: Decisions, toolkit: string, snapshot: Option<CompileInputs>, mode: PayloadMode, o: Options,
    payload: Option<Payload>, builds: Builds, rebuilt: Rebuilt)
    requires (snapshot.None? <==> mode == NotApplicable) && (snapshot.Some? ==> o.canonicalRoot.Some?)
    requires ReadyToPublish(s, left, d, toolkit, snapshot, mode, o, payload, builds, rebuilt)
    ensures var site := Published(left, rebuilt, d, snapshot, mode, payload, o);
      && StateFits(site)
      && (snapshot.Some? ==> InputsRecorded(site, snapshot.value) && RootRecorded(site, o.canonicalRoot.value))
  {
    if d.rebuildBase || d.rebuildRetro {
      StateFitsAfterRebuild(s, left, d, toolkit, snapshot, mode, o, payload, builds, rebuilt);
    } else {
      StateFitsWithoutRebuild(s, left, d, toolkit, snapshot, mode, o, payload, builds, rebuilt);
    }
  }

  lemma BaseRebuiltAfter(
    s: Site, left: Site, d: Decisions, toolkit: string, snapshot: Option<CompileInputs>, mode: PayloadMode, o: Options,
    payload: Option<Payload>, builds: Builds, rebuilt: Rebuilt)
    requires (snapshot.None? <==> mode == NotApplicable) && (snapshot.Some? ==> o.canonicalRoot.Some?)
    requires ReadyToPublish(s, left, d, toolkit, snapshot, mode, o, payload, builds, rebuilt)
    requires d.rebuildBase
    ensures var site := Published(left, rebuilt, d, snapshot, mode, payload, o);
      && (CheckBase(site, toolkit) == Current <==> s.gameFst && OutputRecognised(s, builds.base.value, "base"))
      && !BaseInputDrift(site, o)
  {
    var site := Published(left, rebuilt, d, snapshot, mode, payload, o);
    StateFitsAfter(s, left, d, toolkit, snapshot, mode, o, payload, builds, rebuilt);
    RebuiltBase(site, toolkit, builds.base.value, left.workspaceDol.value, left.workspaceRel.value);
  }

  lemma BaseKeptAfter(
    s: Site, left: Site, d: Decisions, toolkit: string, snapshot: Option<CompileInputs>, mode: PayloadMode, o: Options,
    payload: Option<Payload>, builds: Builds, rebuilt: Rebuilt)
    requires (snapshot.None? <==> mode == NotApplicable) && (snapshot.Some? ==> o.canonicalRoot.Some?)
    requires ReadyToPublish(s, left, d, toolkit, snapshot, mode, o, payload, builds, rebuilt)
    requires !d.rebuildBase
    ensures var site := Published(left, rebuilt, d, snapshot, mode, payload, o);
      && (CheckBase(site, toolkit) == Current <==> s.gameFst)
      && !BaseInputDrift(site, o)
  {
    var site := Published(left, rebuilt, d, snapshot, mode, payload, o);
    StateFitsAfter(s, left, d, toolkit, snapshot, mode, o, payload, builds, rebuilt);
    KeptBase(s, site, toolkit);
  }

  lemma BaseAfter(
    s: Site, left: Site, d: Decisions, toolkit: string, snapshot: Option<CompileInputs>, mode: PayloadMode, o: Options,
    payload: Option<Payload>, builds: Builds, rebuilt: Rebuilt)
    requires (snapshot.None? <==> mode == NotApplicable) && (snapshot.Some? ==> o.canonicalRoot.Some?)
    requires ReadyToPublish(s, left, d, toolkit, snapshot, mode, o, payload, builds, rebuilt)
    ensures var site := Published(left, rebuilt, d, snapshot, mode, payload, o);
      && (CheckBase(site, toolkit) == Current <==>
            s.gameFst && (d.rebuildBase ==> OutputRecognised(s, builds.base.value, "base")))
      && !BaseInputDrift(site, o)
  {
    if d.rebuildBase {
      BaseRebuiltAfter(s, left, d, toolkit, snapshot, mode, o, payload, builds, rebuilt);
    } else {
      BaseKeptAfter(s, left, d, toolkit, snapshot, mode, o, payload, builds, rebuilt);
    }
  }

  /** Without a rebuild, the cache then holds the payload the product was matched with. */
  predicate PayloadLengthAgrees(s: Site, payload: Option<Payload>) {
    payload.Some? ==>
      s.retro.fingerprint.Some? && s.retro.fingerprint.value.payloadLength == payload.value.length
  }

  lemma RetroRebuiltAfter(
    s: Site, left: Site, d: Decisions, toolkit: string, inputs: CompileInputs, mode: PayloadMode, o: Options,
    payload: Option<Payload>, builds: Builds, rebuilt: Rebuilt)
    requires mode != NotApplicable && o.canonicalRoot.Some?
    requires ReadyToPublish(s, left, d, toolkit, Some(inputs), mode, o, payload, builds, rebuilt)
    requires d.rebuildRetro
    ensures var site := Published(left, rebuilt, d, Some(inputs), mode, payload, o);
      CheckRetroRewind(site, toolkit, Some(inputs), false, None) == Current <==>
        s.gameFst && OutputRecognised(s, builds.retro.value, "retro-rewind")
  {
    var site := Published(left, rebuilt, d, Some(inputs), mode, payload, o);
    StateFitsAfter(s, left, d, toolkit, Some(inputs), mode, o, payload, builds, rebuilt);
    RebuiltRetro(site, toolkit, inputs, mode, payload, builds.retro.value, left.workspaceDol.value, left.workspaceRel.value);
  }

  /** A Retro Rewind product that stays is as asked for, but for its cached payload. */
  predicate RetroStands(s: Site, toolkit: string, inputs: CompileInputs, mode: PayloadMode, o: Options, payload: Option<Payload>) {
    && CheckRetroCore(s, toolkit, Some(inputs), false, Observation(s, payload)) in {Current, PayloadChanged}
    && s.gameFst && ReadFingerprint(s.retro).Some? && !RetroInputDrift(s, o)
    && (ResolvePayloadMode(s) == NotApplicable || ResolvePayloadMode(s) == mode)
    && (payload.Some? ==> MatchesPayloadSnapshot(s, payload.value))
  }

  lemma DecidedToKeepRetro(
    s: Site, d: Decisions, toolkit: string, inputs: CompileInputs, mode: PayloadMode, o: Options, payload: Option<Payload>)
    requires Decided(s, toolkit, Some(inputs), mode, o, payload, d) && !d.rebuildRetro
    ensures RetroStands(s, toolkit, inputs, mode, o, payload)
  {
  }

  /** Publishing without a new Retro Rewind keeps what its product was built from. */
  lemma PublishedKeepsRetro(
    s: Site, rebuilt: Rebuilt, d: Decisions, inputs: CompileInputs, mode: PayloadMode, payload: Option<Payload>, o: Options)
    requires rebuilt.retro.None? && ReadFingerprint(s.retro).Some?
    requires o.canonicalRoot.Some? && !IsBlank(s.root)
    ensures var site, f := Published(s, rebuilt, d, Some(inputs), mode, payload, o), s.retro.fingerprint.value;
      && site.retro == s.retro.(runtimeAssets := if d.syncRetroAssets then s.workspaceAssets else s.retro.runtimeAssets)
      && site.payloadCache == (if d.syncPayload then payload else s.payloadCache)
      && ReadCurrentInstallState(site).Some?
      && (f.payloadMode == "downloaded" ==>
            var state := ReadCurrentInstallState(site).value;
            state.payloadMode == f.payloadMode && state.payloadSha == f.payloadSha && state.payloadLength == f.payloadLength)
  {
  }

  /** Then the cache holds the payload, so that only its recorded length can differ. */
  lemma KeptPayload(
    s: Site, site: Site, toolkit: string, inputs: CompileInputs, mode: PayloadMode, o: Options, payload: Option<Payload>)
    requires mode == Online <==> payload.Some?
    requires RetroStands(s, toolkit, inputs, mode, o, payload)
    requires payload.Some? ==> site.payloadCache == payload
    ensures var f := s.retro.fingerprint.value;
      (f.payloadMode == "downloaded" ==>
         && site.payloadCache.Some? && Same(site.payloadCache.value.sha, f.payloadSha)
         && site.payloadCache.value.length == f.payloadLength)
      <==> PayloadLengthAgrees(s, payload)
  {
  }

  lemma RetroKeptAfter(
    s: Site, left: Site, d: Decisions, toolkit: string, inputs: CompileInputs, mode: PayloadMode, o: Options,
    payload: Option<Payload>, builds: Builds, rebuilt: Rebuilt)
    requires mode != NotApplicable && o.canonicalRoot.Some?
    requires ReadyToPublish(s, left, d, toolkit, Some(inputs), mode, o, payload, builds, rebuilt)
    requires !d.rebuildRetro
    ensures var site := Published(left, rebuilt, d, Some(inputs), mode, payload, o);
      CheckRetroRewind(site, toolkit, Some(inputs), false, None) == Current <==>
        s.gameFst && PayloadLengthAgrees(s, payload)
  {
    var site := Published(left, rebuilt, d, Some(inputs), mode, payload, o);
    StateFitsAfter(s, left, d, toolkit, Some(inputs), mode, o, payload, builds, rebuilt);
    DecidedToKeepRetro(s, d, toolkit, inputs, mode, o, payload);
    PublishedKeepsRetro(left, rebuilt, d, inputs, mode, payload, o);
    KeptRetro(s, site, toolkit, inputs, Observation(s, payload));
    KeptPayload(s, site, toolkit, inputs, mode, o, payload);
    assert RuntimeAssetsMatch(site, site.retro, toolkit);
  }

  lemma PayloadAfterRebuild(
    s: Site, left: Site, d: Decisions, toolkit: string, inputs: CompileInputs, mode: PayloadMode, o: Options,
    payload: Option<Payload>, builds: Builds, rebuilt: Rebuilt)
    requires mode != NotApplicable && o.canonicalRoot.Some?
    requires ReadyToPublish(s, left, d, toolkit, Some(inputs), mode, o, payload, builds, rebuilt)
    requires d.rebuildRetro
    ensures var site := Published(left, rebuilt, d, Some(inputs), mode, payload, o);
      && !RetroInputDrift(site, o)
      && (payload.Some? ==> MatchesPayloadSnapshot(site, payload.value) && CachedPayloadMatches(site, payload.value))
      && (ResolvePayloadMode(site) == NotApplicable || ResolvePayloadMode(site) == mode)
  {
  }

  lemma PayloadWithoutRebuild(
    s: Site, left: Site, d: Decisions, toolkit: string, inputs: CompileInputs, mode: PayloadMode, o: Options,
    payload: Option<Payload>, builds: Builds, rebuilt: Rebuilt)
    requires mode != NotApplicable && o.canonicalRoot.Some?
    requires ReadyToPublish(s, left, d, toolkit, Some(inputs), mode, o, payload, builds, rebuilt)
    requires !d.rebuildRetro
    ensures var site := Published(left, rebuilt, d, Some(inputs), mode, payload, o);
      && !RetroInputDrift(site, o)
      && (payload.Some? ==> MatchesPayloadSnapshot(site, payload.value) && CachedPayloadMatches(site, payload.value))
      && (ResolvePayloadMode(site) == NotApplicable || ResolvePayloadMode(site) == mode)
  {
    DecidedToKeepRetro(s, d, toolkit, inputs, mode, o, payload);
    PublishedKeepsRetro(left, rebuilt, d, inputs, mode, payload, o);
  }

  lemma PayloadAfter(
    s: Site, left: Site, d: Decisions, toolkit: string, inputs: CompileInputs, mode: PayloadMode, o: Options,
    payload: Option<Payload>, builds: Builds, rebuilt: Rebuilt)
    requires mode != NotApplicable && o.canonicalRoot.Some?
    requires ReadyToPublish(s, left, d, toolkit, Some(inputs), mode, o, payload, builds, rebuilt)
    ensures var site := Published(left, rebuilt, d, Some(inputs), mode, payload, o);
      && !RetroInputDrift(site, o)
      && (payload.Some? ==> MatchesPayloadSnapshot(site, payload.value) && CachedPayloadMatches(site, payload.value))
      && (ResolvePayloadMode(site) == NotApplicable || ResolvePayloadMode(site) == mode)
  {
    if d.rebuildRetro {
      PayloadAfterRebuild(s, left, d, toolkit, inputs, mode, o, payload, builds, rebuilt);
    } else {
      PayloadWithoutRebuild(s, left, d, toolkit, inputs, mode, o, payload, builds, rebuilt);
    }
  }

  /** Knowing that the cache holds the payload can only make the answer better. */
  lemma ObservedCurrent(s: Site, toolkit: string, inputs: CompileInputs, payload: Option<Payload>)
    requires CheckRetroRewind(s, toolkit, Some(inputs), false, None) == Current
    requires payload.Some? ==> CachedPayloadMatches(s, payload.value)
    ensures CheckRetroRewind(s, toolkit, Some(inputs), false, Observation(s, payload)) == Current
  {
  }

  /** A finished repair has converged exactly when its outputs can be recognised. */
  lemma Converges(
    s: Site, left: Site, d: Decisions, toolkit: string, inputs: CompileInputs, mode: PayloadMode, o: Options,
    payload: Option<Payload>, builds: Builds, rebuilt: Rebuilt)
    requires mode != NotApplicable && o.canonicalRoot.Some?
    requires ReadyToPublish(s, left, d, toolkit, Some(inputs), mode, o, payload, builds, rebuilt)
    ensures var site := Published(left, rebuilt, d, Some(inputs), mode, payload, o);
      && (BothCurrent(site, toolkit, inputs) <==> Recognisable(s, d, builds, payload))
      && (Recognisable(s, d, builds, payload) ==>
            NothingToDo(site, toolkit, inputs, o.canonicalRoot.value, mode, o, payload))
  {
    var site := Published(left, rebuilt, d, Some(inputs), mode, payload, o);
    StateFitsAfter(s, left, d, toolkit, Some(inputs), mode, o, payload, builds, rebuilt);
    BaseAfter(s, left, d, toolkit, Some(inputs), mode, o, payload, builds, rebuilt);
    if d.rebuildRetro {
      RetroRebuiltAfter(s, left, d, toolkit, inputs, mode, o, payload, builds, rebuilt);
    } else {
      RetroKeptAfter(s, left, d, toolkit, inputs, mode, o, payload, builds, rebuilt);
    }
    PayloadAfter(s, left, d, toolkit, inputs, mode, o, payload, builds, rebuilt);
    if BothCurrent(site, toolkit, inputs) {
      ObservedCurrent(site, toolkit, inputs, payload);
    }
  }

  /** Whether Retro Rewind has to be rebuilt, and its payload cache republished. */
  method DecideRetro(
    s: Site, toolkit: string, snapshot: CompileInputs, mode: PayloadMode, o: Options, payload: Option<Payload>)
    returns (rebuildRetro: bool, syncPayload: bool)
    requires mode != NotApplicable && (mode == Online <==> payload.Some?)
    ensures var retroStatus := CheckRetroCore(s, toolkit, Some(snapshot), false, Observation(s, payload));
      rebuildRetro <==>
        || RetroInputDrift(s, o)
        || (retroStatus != Current && retroStatus != PayloadChanged)
        || (payload.Some? && !MatchesPayloadSnapshot(s, payload.value))
        || (s.retro.executable.Some? && ResolvePayloadMode(s) != NotApplicable && ResolvePayloadMode(s) != mode)
    ensures syncPayload <==> mode == Online && (rebuildRetro || !CachedPayloadMatches(s, payload.value))
  {
    var productMatches := payload.Some? && MatchesPayloadSnapshot(s, payload.value);
    var cacheMatches := Observation(s, payload);
    var action := if payload.None? then KeepPayload else PlanPayload(productMatches, cacheMatches == Some(true));
    var retroStatus := CheckRetroCore(s, toolkit, Some(snapshot), false, cacheMatches);
    rebuildRetro := RetroInputDrift(s, o) || RequiresCompilation(retroStatus) || retroStatus == Absent;
    syncPayload := retroStatus == PayloadChanged;
    if action == RebuildForPayload {
      rebuildRetro, syncPayload := true, true;
    } else if action == PublishCacheOnly {
      syncPayload := true;
    }
    var installedMode := ResolvePayloadMode(s);
    if s.retro.executable.Some? && installedMode != NotApplicable && installedMode != mode {
      rebuildRetro := true;
      syncPayload := mode == Online;
    }
    if rebuildRetro && mode == Online {
      syncPayload := true;
    }
    if retroStatus == PayloadChanged {
      PayloadChangedIsOnline(s, toolkit, snapshot, payload);
    }
  }

  /** The answer that only the payload changed is given of a product built with a
      payload, and, when the cache has been observed, only of a cache that differs. */
  lemma PayloadChangedIsOnline(s: Site, toolkit: string, snapshot: CompileInputs, payload: Option<Payload>)
    requires CheckRetroCore(s, toolkit, Some(snapshot), false, Observation(s, payload)) == PayloadChanged
    ensures ResolvePayloadMode(s) == Online && s.retro.executable.Some?
    ensures payload.Some? ==> !CachedPayloadMatches(s, payload.value)
  {
  }

  /** Retro Rewind has to be repaired, but its folder was not given. */
  predicate NeedsFolder(s: Site, toolkit: string, snapshot: Option<CompileInputs>, o: Options) {
    snapshot.None? && (RetroInputDrift(s, o) || ActionRequired(CheckRetroCore(s, toolkit, None, false, None)))
  }

  /** The comparison of the installed products with what was asked for. */
  method Decide(
    s: Site, toolkit: string, snapshot: Option<CompileInputs>, mode: PayloadMode, o: Options, payload: Option<Payload>)
    returns (refused: bool, d: Decisions)
    requires snapshot.None? <==> mode == NotApplicable
    requires mode == Online <==> payload.Some?
    ensures !refused ==> Decided(s, toolkit, snapshot, mode, o, payload, d)
    ensures refused <==> NeedsFolder(s, toolkit, snapshot, o)
  {
    var baseStatus := CheckBaseCore(s, toolkit);
    var rebuildBase := RequiresCompilation(baseStatus) || BaseInputDrift(s, o);
    var rebuildRetro, syncPayload := false, false;
    if snapshot.None? {
      if RetroInputDrift(s, o) || ActionRequired(CheckRetroCore(s, toolkit, None, false, None)) {
        return true, Decisions(false, false, false, false, false);
      }
    } else {
      rebuildRetro, syncPayload := DecideRetro(s, toolkit, snapshot.value, mode, o, payload);
    }
    var syncBaseAssets := !rebuildBase && s.base.executable.Some? && !RuntimeAssetsMatch(s, s.base, toolkit);
    var syncRetroAssets := !rebuildRetro && s.retro.executable.Some? && !RuntimeAssetsMatch(s, s.retro, toolkit);
    refused, d := false, Decisions(rebuildBase, rebuildRetro, syncPayload, syncBaseAssets, syncRetroAssets);
    BaseStatusIsCompiled(s, toolkit);
  }

  lemma BaseStatusIsCompiled(s: Site, toolkit: string)
    ensures RequiresCompilation(CheckBaseCore(s, toolkit)) <==> CheckBaseCore(s, toolkit) != Current
  {
  }

  /** A repair decides to do nothing exactly when there is nothing to do. */
  lemma NothingDecided(
    s: Site, d: Decisions, toolkit: string, inputs: CompileInputs, root: string, mode: PayloadMode, o: Options,
    payload: Option<Payload>)
    requires s.hasToolkit && !IsBlank(toolkit) && mode != NotApplicable && (mode == Online <==> payload.Some?)
    requires Decided(s, toolkit, Some(inputs), mode, o, payload, d)
    ensures d == Decisions(false, false, false, false, false) && RootRecorded(s, root) <==>
      NothingToDo(s, toolkit, inputs, root, mode, o, payload)
  {
  }

  /** Without an observation the cache itself decides between current and changed. */
  lemma UnobservedRetro(s: Site, toolkit: string, inputs: CompileInputs, known: Option<bool>)
    requires CheckRetroCore(s, toolkit, Some(inputs), false, known) in {Current, PayloadChanged}
    ensures ReadFingerprint(s.retro).Some?
    ensures var f := s.retro.fingerprint.value;
      CheckRetroCore(s, toolkit, Some(inputs), false, None) == Current <==>
        (f.payloadMode == "downloaded" ==>
           && s.payloadCache.Some? && Same(s.payloadCache.value.sha, f.payloadSha)
           && s.payloadCache.value.length == f.payloadLength)
  {
  }

  /** Doing nothing leaves both products current under the same condition. */
  lemma NothingDecidedConverges(
    s: Site, d: Decisions, toolkit: string, inputs: CompileInputs, mode: PayloadMode, o: Options,
    payload: Option<Payload>, builds: Builds)
    requires s.hasToolkit && !IsBlank(toolkit) && mode != NotApplicable && (mode == Online <==> payload.Some?)
    requires Decided(s, toolkit, Some(inputs), mode, o, payload, d)
    requires d == Decisions(false, false, false, false, false)
    ensures BothCurrent(s, toolkit, inputs) <==> Recognisable(s, d, builds, payload)
  {
    DecidedToKeepRetro(s, d, toolkit, inputs, mode, o, payload);
    UnobservedRetro(s, toolkit, inputs, Observation(s, payload));
    KeptPayload(s, s, toolkit, inputs, mode, o, payload);
  }

  // What stands in the way of a repair

  /** A product that was made from other game data than the operation expects. */
  predicate Drifts(p: Product, o: Options) {
    && !IsBlank(o.expectedDol) && !IsBlank(o.expectedRel) && p.executable.Some?
    && !(HasFingerprint(p) && Same(p.fingerprint.value.dol, o.expectedDol) && Same(p.fingerprint.value.rel, o.expectedRel))
  }

  /** The installed product was built with exactly this payload, on both records. */
  predicate RecordsPayload(s: Site, payload: Payload) {
    && HasFingerprint(s.retro) && OwnState(s)
    && s.retro.fingerprint.value.payloadMode == "downloaded" && s.stateFile.state.payloadMode == "downloaded"
    && s.retro.fingerprint.value.payloadSha == payload.sha && s.stateFile.state.payloadSha == payload.sha
  }

  /** The payload that an installation can fall back to: what both its records name, still in its cache. */
  predicate CanFallBack(s: Site) {
    && HasFingerprint(s.retro) && s.stateFile.StateRead? && s.payloadCache.Some?
    && s.retro.fingerprint.value.payloadMode == "downloaded" && s.stateFile.state.payloadMode == "downloaded"
    && !IsBlank(s.retro.fingerprint.value.payloadSha)
    && s.retro.fingerprint.value.payloadSha == s.stateFile.state.payloadSha == s.payloadCache.value.sha
    && 0 < s.retro.fingerprint.value.payloadLength == s.payloadCache.value.length
  }

  /** The payload is what was downloaded, or after a failure what can be fallen back to;
      a timeout leaves none. */
  lemma PayloadExactly(s: Site, mode: PayloadMode, download: Download)
    ensures var payload := ObtainPayload(s, mode, download);
      && (mode != Online ==> payload == None)
      && (mode == Online && download.Downloaded? ==> payload == Some(download.payload))
      && (mode == Online && download == Unavailable ==> payload == if CanFallBack(s) then s.payloadCache else None)
      && (mode == Online && download == TimedOut ==> payload == None)
  {
  }

  /** What a repair decides, and why. */
  lemma DecidedExactly(
    s: Site, toolkit: string, snapshot: Option<CompileInputs>, mode: PayloadMode, o: Options,
    payload: Option<Payload>, d: Decisions)
    requires Decided(s, toolkit, snapshot, mode, o, payload, d)
    ensures d.rebuildBase <==> CheckBaseCore(s, toolkit) != Current || Drifts(s.base, o)
    ensures d.rebuildRetro ==> snapshot.Some?
    ensures snapshot.Some? && !d.rebuildRetro ==>
      && s.retro.executable.Some? && !Drifts(s.retro, o)
      && BuiltFrom(s, toolkit, snapshot) && PayloadRecorded(s, s.retro.fingerprint.value)
      && (payload.Some? ==> RecordsPayload(s, payload.value))
      && (s.retro.fingerprint.value.payloadMode == "downloaded" ==> mode == Online)
      && (s.retro.fingerprint.value.payloadMode == "skipped" ==> mode == Skipped)
    ensures d.syncPayload <==> mode == Online && payload.Some? && (d.rebuildRetro || s.payloadCache != payload)
    ensures d.syncBaseAssets <==> !d.rebuildBase && !SupportFilesFit(s, s.base, toolkit)
    ensures d.syncRetroAssets <==> !d.rebuildRetro && s.retro.executable.Some? && !SupportFilesFit(s, s.retro, toolkit)
  {
    BaseStatusExactly(s, toolkit);
    RetroCurrentExactly(s, toolkit, snapshot, false, Observation(s, payload));
  }

  /** Why a repair is refused before anything is compared, or because Retro Rewind needs its folder. */
  predicate Inadmissible(
    error: RepairError, s: Site, snapshot: Option<CompileInputs>, mode: PayloadMode, o: Options, download: Download)
  {
    match error
    case NotInstalled => s.stateFile.NoFile? && s.base.executable.None? && s.retro.executable.None?
    case ToolkitMissing => !s.hasToolkit
    case ProductsRunning => o.productsRunning
    case HalfExpectedHashes => IsBlank(o.expectedDol) != IsBlank(o.expectedRel)
    case ToolkitUnidentified =>
      s.toolkitState.None? || s.toolkitState.value.schemaVersion != 2 || IsBlank(s.toolkitState.value.toolkit)
      || s.toolkitState.value.package == "" || !s.hasToolkit
    case PayloadUnavailable => mode == Online && download == Unavailable && !CanFallBack(s)
    case PayloadTimedOut => mode == Online && download == TimedOut
    case CanonicalRootMissing => snapshot.Some? && o.canonicalRoot.None?
    case RetroNeedsItsFolder =>
      && snapshot.None?
      && (|| Drifts(s.retro, o)
          || (s.retro.executable.None? && RecordsRetro(s))
          || (s.retro.executable.Some?
              && CheckRetroCore(s, ResolveToolkitFingerprint(s), None, false, None) != Current))
    case _ => false
  }

  /** The disc's files are there and have these hashes. */
  predicate DiscIs(s: Site, dol: string, rel: string) {
    && !IsBlank(dol) && !IsBlank(rel) && s.gameDol.Some? && s.gameRel.Some?
    && Same(s.gameDol.value, dol) && Same(s.gameRel.value, rel)
  }

  predicate DiscUsable(s: Site, o: Options) {
    if IsBlank(o.expectedDol) then
      && s.stateFile.StateRead? && s.stateFile.state.schemaVersion == 1
      && DiscIs(s, s.stateFile.state.dol, s.stateFile.state.rel)
    else DiscIs(s, o.expectedDol, o.expectedRel)
  }

  /** What the script left has an executable of at least 64 KiB and a record. */
  predicate OutputUsable(output: Option<Output>) {
    && output.Some? && output.value.executable.Some? && output.value.executable.value.length >= 65536
    && output.value.localBuild.Some?
  }

  /** The record of a Retro Rewind build names the disc, the code and the payload it was given. */
  predicate BuiltAsAsked(s: Site, local: LocalBuild, inputs: CompileInputs, mode: PayloadMode, payload: Option<Payload>) {
    && local.schemaVersion == 1 && s.gameDol.Some? && s.gameRel.Some?
    && Same(local.dol, s.gameDol.value) && Same(local.rel, s.gameRel.value)
    && local.codePul.Some? && Same(local.codePul.value, inputs.codePul)
    && if mode == Online then
         && local.payloadMode == Some("downloaded")
         && (payload.Some? ==>
               && local.payloadSha.Some? && Same(local.payloadSha.value, payload.value.sha)
               && local.payloadLength == Some(payload.value.length))
         && (payload.None? ==> local.payloadSha.None? && local.payloadLength in {None, Some(0)})
       else local.payloadMode == Some("skipped") && local.payloadSha.None? && local.payloadLength in {None, Some(0)}
  }

  /** Why a decided repair cannot be carried out. */
  predicate Hindered(
    error: RepairError, s: Site, d: Decisions, toolkit: string, snapshot: Option<CompileInputs>, mode: PayloadMode,
    o: Options, payload: Option<Payload>, builds: Builds)
  {
    match error
    case ToolkitModified =>
      && (d.rebuildBase || d.rebuildRetro)
      && !(s.toolkitState.Some? && s.toolkitState.value.schemaVersion == 2
           && !IsBlank(s.toolkitState.value.toolkit) && s.toolkitState.value.toolkit == toolkit == s.toolkitContent)
    case GameInputsUnusable => (d.rebuildBase || d.rebuildRetro) && !DiscUsable(s, o)
    case BuildFailed =>
      (d.rebuildBase && !OutputUsable(builds.base)) || (d.rebuildRetro && !OutputUsable(builds.retro))
    case PayloadNotConsumed =>
      && d.rebuildRetro && OutputUsable(builds.retro) && DiscUsable(s, o)
      && snapshot.Some? && !BuiltAsAsked(s, builds.retro.value.localBuild.value, snapshot.value, mode, payload)
    case RuntimeAssetsUnusable =>
      && (d.syncBaseAssets || d.syncRetroAssets)
      && !(s.toolkitState.Some? && s.toolkitState.value.schemaVersion == 2 && s.toolkitState.value.toolkit == toolkit
           && !IsBlank(s.toolkitState.value.runtimeAssets) && s.workspaceAssets == Some(s.toolkitState.value.runtimeAssets))
    case _ => false
  }

  lemma InputsUsableExactly(s: Site, o: Options)
    requires IsBlank(o.expectedDol) == IsBlank(o.expectedRel)
    ensures InputsUsable(s, o) <==> DiscUsable(s, o)
  {
  }

  lemma ConsumedExactly(s: Site, local: LocalBuild, inputs: CompileInputs, mode: PayloadMode, payload: Option<Payload>)
    requires s.gameDol.Some? && s.gameRel.Some? && mode != NotApplicable
    ensures RetroBuildConsumed(local, s.gameDol.value, s.gameRel.value, inputs.codePul, mode, payload) <==>
            BuiltAsAsked(s, local, inputs, mode, payload)
  {
  }

  /** A compilation can be made exactly when none of the four errors about it applies. */
  lemma BuildableExactly(
    s: Site, d: Decisions, toolkit: string, snapshot: Option<CompileInputs>, mode: PayloadMode,
    o: Options, payload: Option<Payload>, builds: Builds)
    requires IsBlank(o.expectedDol) == IsBlank(o.expectedRel) && (mode == Online <==> payload.Some?)
    requires d.rebuildRetro ==> snapshot.Some? && mode != NotApplicable
    requires d.rebuildBase || d.rebuildRetro
    ensures Buildable(s, d, toolkit, snapshot, mode, o, payload, builds) <==>
            && !Hindered(ToolkitModified, s, d, toolkit, snapshot, mode, o, payload, builds)
            && !Hindered(GameInputsUnusable, s, d, toolkit, snapshot, mode, o, payload, builds)
            && !Hindered(BuildFailed, s, d, toolkit, snapshot, mode, o, payload, builds)
            && !Hindered(PayloadNotConsumed, s, d, toolkit, snapshot, mode, o, payload, builds)
  {
    InputsUsableExactly(s, o);
    if d.rebuildRetro && DiscUsable(s, o) && OutputUsable(builds.retro) {
      ConsumedExactly(s, builds.retro.value.localBuild.value, snapshot.value, mode, payload);
    }
  }

  /** A decided repair can be carried out exactly when nothing hinders it. */
  lemma RepairableExactly(
    s: Site, d: Decisions, toolkit: string, snapshot: Option<CompileInputs>, mode: PayloadMode,
    o: Options, payload: Option<Payload>, builds: Builds)
    requires IsBlank(o.expectedDol) == IsBlank(o.expectedRel) && (mode == Online <==> payload.Some?)
    requires d.rebuildRetro ==> snapshot.Some? && mode != NotApplicable
    ensures Repairable(s, d, toolkit, snapshot, mode, o, payload, builds) <==>
            forall error :: !Hindered(error, s, d, toolkit, snapshot, mode, o, payload, builds)
  {
    if d.rebuildBase || d.rebuildRetro {
      BuildableExactly(s, d, toolkit, snapshot, mode, o, payload, builds);
    }
    OnlyTheseHinder(s, d, toolkit, snapshot, mode, o, payload, builds);
  }

  lemma OnlyTheseHinder(
    s: Site, d: Decisions, toolkit: string, snapshot: Option<CompileInputs>, mode: PayloadMode,
    o: Options, payload: Option<Payload>, builds: Builds)
    ensures (forall error :: !Hindered(error, s, d, toolkit, snapshot, mode, o, payload, builds)) <==>
            && !Hindered(ToolkitModified, s, d, toolkit, snapshot, mode, o, payload, builds)
            && !Hindered(GameInputsUnusable, s, d, toolkit, snapshot, mode, o, payload, builds)
            && !Hindered(BuildFailed, s, d, toolkit, snapshot, mode, o, payload, builds)
            && !Hindered(PayloadNotConsumed, s, d, toolkit, snapshot, mode, o, payload, builds)
            && !Hindered(RuntimeAssetsUnusable, s, d, toolkit, snapshot, mode, o, payload, builds)
  {
    forall error |
      && !Hindered(ToolkitModified, s, d, toolkit, snapshot, mode, o, payload, builds)
      && !Hindered(GameInputsUnusable, s, d, toolkit, snapshot, mode, o, payload, builds)
      && !Hindered(BuildFailed, s, d, toolkit, snapshot, mode, o, payload, builds)
      && !Hindered(PayloadNotConsumed, s, d, toolkit, snapshot, mode, o, payload, builds)
      && !Hindered(RuntimeAssetsUnusable, s, d, toolkit, snapshot, mode, o, payload, builds)
      ensures !Hindered(error, s, d, toolkit, snapshot, mode, o, payload, builds)
    {
      match error
      case ToolkitModified =>
      case GameInputsUnusable =>
      case BuildFailed =>
      case PayloadNotConsumed =>
      case RuntimeAssetsUnusable =>
      case _ =>
    }
  }

  /** The condition on a result that every way out of a repair meets. */
  predicate Outcome(
    s: Site, snapshot: Option<CompileInputs>, mode: PayloadMode, o: Options, builds: Builds, r: Reconciliation)
  {
    var toolkit := ResolveToolkitFingerprint(s);
    match r
    case Threw(error, left) =>
      && error != PayloadNotStaged
      && left == s.(workspaceDol := left.workspaceDol, workspaceRel := left.workspaceRel)
    case Returned(committed, site, d, payload, _) =>
      && Decided(s, toolkit, snapshot, mode, o, payload, d)
      && (!committed ==> site == s)
      && (d != Decisions(false, false, false, false, false) ==> committed)
      && site == s.(
           base := site.base, retro := site.retro, payloadCache := site.payloadCache, stateFile := site.stateFile,
           configuredRetroRoot := site.configuredRetroRoot,
           workspaceDol := site.workspaceDol, workspaceRel := site.workspaceRel)
      && (CheckBase(site, toolkit) == Current <==>
            s.gameFst && (d.rebuildBase ==> builds.base.Some? && OutputRecognised(s, builds.base.value, "base")))
      && (snapshot.Some? ==>
            && o.canonicalRoot.Some?
            && (BothCurrent(site, toolkit, snapshot.value) <==> Recognisable(s, d, builds, payload))
            && (!committed <==> NothingToDo(s, toolkit, snapshot.value, o.canonicalRoot.value, mode, o, payload))
            && (Recognisable(s, d, builds, payload) ==>
                  NothingToDo(site, toolkit, snapshot.value, o.canonicalRoot.value, mode, o, payload)))
  }

  /** What a repair publishes is what it decided, and nothing else changes. */
  predicate OnlyDecided(s: Site, snapshot: Option<CompileInputs>, mode: PayloadMode, o: Options, builds: Builds, r: Reconciliation)
    requires r.Returned?
  {
    && ProductsAsDecided(s, r.decisions, builds, r.site)
    && RecordsAsDecided(s, snapshot, mode, o, r)
  }

  predicate ProductsAsDecided(s: Site, d: Decisions, builds: Builds, site: Site) {
    && (!d.rebuildBase ==> site.base == s.base.(runtimeAssets := if d.syncBaseAssets then s.workspaceAssets else s.base.runtimeAssets))
    && (!d.rebuildRetro ==> site.retro == s.retro.(runtimeAssets := if d.syncRetroAssets then s.workspaceAssets else s.retro.runtimeAssets))
    && (d.rebuildBase ==> builds.base.Some? && ProducedBy(builds.base.value, site.base))
    && (d.rebuildRetro ==> builds.retro.Some? && ProducedBy(builds.retro.value, site.retro))
  }

  predicate RecordsAsDecided(s: Site, snapshot: Option<CompileInputs>, mode: PayloadMode, o: Options, r: Reconciliation)
    requires r.Returned?
  {
    var d, site := r.decisions, r.site;
    && site.payloadCache ==
         (if d.syncPayload then r.payload else if d.rebuildRetro && mode == Skipped then None else s.payloadCache)
    && site.configuredRetroRoot == (if r.committed && snapshot.Some? then o.canonicalRoot else s.configuredRetroRoot)
    && (if r.committed && (snapshot.Some? || d.rebuildBase || d.rebuildRetro) then
          site.stateFile.StateRead? && (site.stateFile.state.retroInstalled <==> snapshot.Some? || s.retro.executable.Some?)
        else site.stateFile == s.stateFile)
    && r.cacheVerified == (if site.retro.executable.Some? && RecordedMode(site) == "downloaded" then Some(true) else None)
  }

  /** The product is what the script left, with a record of its executable. */
  predicate ProducedBy(output: Output, p: Product) {
    && p.executable == output.executable && p.localBuild == output.localBuild && p.runtimeAssets == output.runtimeAssets
    && p.fingerprint.Some? && p.executable.Some? && p.fingerprint.value.executable == p.executable.value.sha
  }

  /** How the installed Retro Rewind got its payload, as its fingerprint or else the state file says. */
  function RecordedMode(s: Site): string {
    if HasFingerprint(s.retro) && s.retro.fingerprint.value.payloadMode != "" then s.retro.fingerprint.value.payloadMode
    else if s.stateFile.StateRead? then s.stateFile.state.payloadMode
    else ""
  }

  /** What was asked for is what is then recorded. */
  predicate AsAsked(site: Site, snapshot: Option<CompileInputs>, o: Options, payload: Option<Payload>) {
    && !Drifts(site.base, o)
    && (snapshot.Some? ==>
          && !Drifts(site.retro, o)
          && (payload.Some? ==> RecordsPayload(site, payload.value) && site.payloadCache == payload)
          && o.canonicalRoot.Some?
          && site.configuredRetroRoot.Some? && Same(site.configuredRetroRoot.value, o.canonicalRoot.value)
          && site.stateFile.StateRead? && Same(site.stateFile.state.retroRoot, o.canonicalRoot.value))
  }

  /** The guards a repair has to pass before it compares anything. */
  predicate Admitted(s: Site, snapshot: Option<CompileInputs>, mode: PayloadMode, o: Options, download: Download) {
    && IsPresent(s) && s.hasToolkit && !o.productsRunning
    && IsBlank(o.expectedDol) == IsBlank(o.expectedRel)
    && !IsBlank(ResolveToolkitFingerprint(s))
    && (mode == Online ==> ObtainPayload(s, mode, download).Some?)
    && (snapshot.Some? ==> o.canonicalRoot.Some?)
  }

  /** A repair gets as far as deciding exactly when it is not inadmissible. */
  lemma AdmittedExactly(s: Site, snapshot: Option<CompileInputs>, mode: PayloadMode, o: Options, download: Download)
    requires snapshot.None? <==> mode == NotApplicable
    ensures Admitted(s, snapshot, mode, o, download) && !NeedsFolder(s, ResolveToolkitFingerprint(s), snapshot, o) <==>
            forall error :: !Inadmissible(error, s, snapshot, mode, o, download)
  {
    ToolkitIdentified(s);
    PayloadExactly(s, mode, download);
    FolderExactly(s, snapshot, o);
    if forall error :: !Inadmissible(error, s, snapshot, mode, o, download) {
      assert !Inadmissible(NotInstalled, s, snapshot, mode, o, download);
      assert !Inadmissible(ToolkitMissing, s, snapshot, mode, o, download);
      assert !Inadmissible(ProductsRunning, s, snapshot, mode, o, download);
      assert !Inadmissible(HalfExpectedHashes, s, snapshot, mode, o, download);
      assert !Inadmissible(ToolkitUnidentified, s, snapshot, mode, o, download);
      assert !Inadmissible(PayloadUnavailable, s, snapshot, mode, o, download);
      assert !Inadmissible(PayloadTimedOut, s, snapshot, mode, o, download);
      assert !Inadmissible(CanonicalRootMissing, s, snapshot, mode, o, download);
      assert !Inadmissible(RetroNeedsItsFolder, s, snapshot, mode, o, download);
    }
  }

  lemma FolderExactly(s: Site, snapshot: Option<CompileInputs>, o: Options)
    ensures NeedsFolder(s, ResolveToolkitFingerprint(s), snapshot, o) <==>
            (&& snapshot.None?
             && (|| Drifts(s.retro, o)
                 || (s.retro.executable.None? && RecordsRetro(s))
                 || (s.retro.executable.Some?
                     && CheckRetroCore(s, ResolveToolkitFingerprint(s), None, false, None) != Current)))
  {
    MissingRetroExactly(s, ResolveToolkitFingerprint(s), None, false, None);
  }

  /** Every error names something that stands in the way, and a repair returns only when nothing does. */
  ghost predicate Explained(
    s: Site, snapshot: Option<CompileInputs>, mode: PayloadMode, o: Options, download: Download, builds: Builds,
    r: Reconciliation)
  {
    var toolkit, payload := ResolveToolkitFingerprint(s), ObtainPayload(s, mode, download);
    match r
    case Threw(error, _) =>
      || Inadmissible(error, s, snapshot, mode, o, download)
      || exists d :: Decided(s, toolkit, snapshot, mode, o, payload, d)
                     && Hindered(error, s, d, toolkit, snapshot, mode, o, payload, builds)
    case Returned(_, _, d, _, _) =>
      forall error :: (
        && !Inadmissible(error, s, snapshot, mode, o, download)
        && !Hindered(error, s, d, toolkit, snapshot, mode, o, payload, builds))
  }

  /** The guards of ReconcileAsync. */
  method Refusal(s: Site, snapshot: Option<CompileInputs>, mode: PayloadMode, o: Options, download: Download)
    returns (error: Option<RepairError>)
    ensures error.None? <==> Admitted(s, snapshot, mode, o, download)
    ensures error.Some? ==> error.value != PayloadNotStaged && Inadmissible(error.value, s, snapshot, mode, o, download)
  {
    ToolkitIdentified(s);
    PayloadExactly(s, mode, download);
    if !IsPresent(s) {
      return Some(NotInstalled);
    }
    if !s.hasToolkit {
      return Some(ToolkitMissing);
    }
    if o.productsRunning {
      return Some(ProductsRunning);
    }
    if IsBlank(o.expectedDol) != IsBlank(o.expectedRel) {
      return Some(HalfExpectedHashes);
    }
    if IsBlank(ResolveToolkitFingerprint(s)) {
      return Some(ToolkitUnidentified);
    }
    if mode == Online && ObtainPayload(s, mode, download).None? {
      return Some(if download.TimedOut? then PayloadTimedOut else PayloadUnavailable);
    }
    if snapshot.Some? && o.canonicalRoot.None? {
      return Some(CanonicalRootMissing);
    }
    return None;
  }

  /** ReconcileAsync. */
  method Reconcile(
    s: Site, snapshot: Option<CompileInputs>, mode: PayloadMode, o: Options, download: Download, builds: Builds)
    returns (r: Reconciliation)
    requires snapshot.None? <==> mode == NotApplicable
    requires !IsBlank(s.root)
    ensures Outcome(s, snapshot, mode, o, builds, r)
    ensures Explained(s, snapshot, mode, o, download, builds, r)
    ensures r.Returned? ==>
      && Admitted(s, snapshot, mode, o, download) && r.payload == ObtainPayload(s, mode, download)
      && OnlyDecided(s, snapshot, mode, o, builds, r) && AsAsked(r.site, snapshot, o, r.payload)
    ensures
      && snapshot.Some? && Admitted(s, snapshot, mode, o, download)
      && NothingToDo(s, ResolveToolkitFingerprint(s), snapshot.value, o.canonicalRoot.value, mode, o,
                     ObtainPayload(s, mode, download))
      ==> r.Returned?
    ensures
      && Admitted(s, snapshot, mode, o, download) && !NeedsFolder(s, ResolveToolkitFingerprint(s), snapshot, o)
      && (forall d :: Decided(s, ResolveToolkitFingerprint(s), snapshot, mode, o, ObtainPayload(s, mode, download), d) ==>
            Repairable(s, d, ResolveToolkitFingerprint(s), snapshot, mode, o, ObtainPayload(s, mode, download), builds))
      ==> r.Returned?
  {
    AdmittedExactly(s, snapshot, mode, o, download);
    var error := Refusal(s, snapshot, mode, o, download);
    if error.Some? {
      return Threw(error.value, s);
    }
    var toolkit, payload := ResolveToolkitFingerprint(s), ObtainPayload(s, mode, download);
    var refused, d := Decide(s, toolkit, snapshot, mode, o, payload);
    if refused {
      FolderExactly(s, snapshot, o);
      return Threw(RetroNeedsItsFolder, s);
    }
    RepairableExactly(s, d, toolkit, snapshot, mode, o, payload, builds);
    r := RepairDecided(s, d, toolkit, snapshot, mode, o, payload, builds);
  }

  /** From the decisions to their publication, if there is anything to publish. */
  method RepairDecided(
    s: Site, d: Decisions, toolkit: string, snapshot: Option<CompileInputs>, mode: PayloadMode, o: Options,
    payload: Option<Payload>, builds: Builds)
    returns (r: Reconciliation)
    requires snapshot.None? <==> mode == NotApplicable
    requires mode == Online <==> payload.Some?
    requires snapshot.Some? ==> o.canonicalRoot.Some?
    requires s.hasToolkit && !IsBlank(toolkit) && toolkit == ResolveToolkitFingerprint(s) && !IsBlank(s.root)
    requires IsBlank(o.expectedDol) == IsBlank(o.expectedRel)
    requires Decided(s, toolkit, snapshot, mode, o, payload, d)
    ensures Outcome(s, snapshot, mode, o, builds, r)
    ensures r.Returned? <==> Repairable(s, d, toolkit, snapshot, mode, o, payload, builds)
    ensures r.Returned? ==>
      && r.payload == payload && r.decisions == d
      && OnlyDecided(s, snapshot, mode, o, builds, r) && AsAsked(r.site, snapshot, o, r.payload)
    ensures r.Threw? ==> Hindered(r.error, s, d, toolkit, snapshot, mode, o, payload, builds)
    ensures
      snapshot.Some? && NothingToDo(s, toolkit, snapshot.value, o.canonicalRoot.value, mode, o, payload) ==> r.Returned?
  {
    var rootChanged := snapshot.Some? && !RootRecorded(s, o.canonicalRoot.value);
    if snapshot.Some? {
      NothingDecided(s, d, toolkit, snapshot.value, o.canonicalRoot.value, mode, o, payload);
    }
    if d == Decisions(false, false, false, false, false) && !rootChanged {
      r := Returned(false, s, d, payload, VerifiedPayloadCache(s));
      NothingPublished(s, d, toolkit, snapshot, mode, o, payload, builds);
      return;
    }
    r := RebuildAndPublish(s, d, toolkit, snapshot, mode, o, payload, builds);
  }

  lemma NothingPublished(
    s: Site, d: Decisions, toolkit: string, snapshot: Option<CompileInputs>, mode: PayloadMode, o: Options,
    payload: Option<Payload>, builds: Builds)
    requires snapshot.None? <==> mode == NotApplicable
    requires mode == Online <==> payload.Some?
    requires snapshot.Some? ==> o.canonicalRoot.Some? && RootRecorded(s, o.canonicalRoot.value)
    requires s.hasToolkit && !IsBlank(toolkit) && toolkit == ResolveToolkitFingerprint(s)
    requires Decided(s, toolkit, snapshot, mode, o, payload, d) && d == Decisions(false, false, false, false, false)
    ensures var r := Returned(false, s, d, payload, VerifiedPayloadCache(s));
      && Outcome(s, snapshot, mode, o, builds, r)
      && OnlyDecided(s, snapshot, mode, o, builds, r) && AsAsked(s, snapshot, o, payload)
  {
    if snapshot.Some? {
      NothingDecided(s, d, toolkit, snapshot.value, o.canonicalRoot.value, mode, o, payload);
      NothingDecidedConverges(s, d, toolkit, snapshot.value, mode, o, payload, builds);
    }
  }

  method RebuildAndPublish(
    s: Site, d: Decisions, toolkit: string, snapshot: Option<CompileInputs>, mode: PayloadMode, o: Options,
    payload: Option<Payload>, builds: Builds)
    returns (r: Reconciliation)
    requires snapshot.None? <==> mode == NotApplicable
    requires mode == Online <==> payload.Some?
    requires snapshot.Some? ==> o.canonicalRoot.Some?
    requires s.hasToolkit && !IsBlank(toolkit) && toolkit == ResolveToolkitFingerprint(s) && !IsBlank(s.root)
    requires IsBlank(o.expectedDol) == IsBlank(o.expectedRel)
    requires Decided(s, toolkit, snapshot, mode, o, payload, d)
    requires d != Decisions(false, false, false, false, false) || (snapshot.Some? && !RootRecorded(s, o.canonicalRoot.value))
    ensures Outcome(s, snapshot, mode, o, builds, r)
    ensures r.Returned? <==> Repairable(s, d, toolkit, snapshot, mode, o, payload, builds)
    ensures r.Returned? ==>
      && r.payload == payload && r.decisions == d
      && OnlyDecided(s, snapshot, mode, o, builds, r) && AsAsked(r.site, snapshot, o, r.payload)
    ensures r.Threw? ==> Hindered(r.error, s, d, toolkit, snapshot, mode, o, payload, builds)
  {
    var error, left, rebuilt := PrepareRepair(s, d, toolkit, snapshot, mode, o, payload, builds);
    if error.Some? {
      return Threw(error.value, left);
    }
    r := PublishDecided(s, left, d, toolkit, snapshot, mode, o, payload, builds, rebuilt);
  }

  /** Everything that can still fail before the publication. */
  method PrepareRepair(
    s: Site, d: Decisions, toolkit: string, snapshot: Option<CompileInputs>, mode: PayloadMode, o: Options,
    payload: Option<Payload>, builds: Builds)
    returns (error: Option<RepairError>, left: Site, rebuilt: Rebuilt)
    requires (snapshot.None? <==> mode == NotApplicable) && (mode == Online <==> payload.Some?)
    requires IsBlank(o.expectedDol) == IsBlank(o.expectedRel)
    requires (d.rebuildRetro ==> snapshot.Some?) && (d.syncPayload ==> payload.Some?)
    ensures left == s.(workspaceDol := left.workspaceDol, workspaceRel := left.workspaceRel)
    ensures error != Some(PayloadNotStaged)
    ensures error.Some? ==> Hindered(error.value, s, d, toolkit, snapshot, mode, o, payload, builds)
    ensures error.None? <==> Repairable(s, d, toolkit, snapshot, mode, o, payload, builds)
    ensures error.None? ==>
      && (if d.rebuildBase || d.rebuildRetro then
            RebuiltAs(s, left, d, toolkit, snapshot, mode, o, payload, builds, rebuilt)
          else rebuilt == Rebuilt(None, None))
      && (d.syncBaseAssets || d.syncRetroAssets ==> AssetsSyncable(s, toolkit))
  {
    error, left, rebuilt := None, s, Rebuilt(None, None);
    if d.rebuildBase || d.rebuildRetro {
      error, left, rebuilt := RebuildProducts(s, d, toolkit, snapshot, mode, o, payload, builds);
      if error.Some? {
        return;
      }
    }
    if (d.syncBaseAssets || d.syncRetroAssets) && !AssetsSyncable(s, toolkit) {
      return Some(RuntimeAssetsUnusable), left, rebuilt;
    }
    if d.syncPayload && payload.None? {
      return Some(PayloadNotStaged), left, rebuilt;
    }
  }

  /** The publication, which is one transaction. */
  method PublishDecided(
    s: Site, left: Site, d: Decisions, toolkit: string, snapshot: Option<CompileInputs>, mode: PayloadMode, o: Options,
    payload: Option<Payload>, builds: Builds, rebuilt: Rebuilt)
    returns (r: Reconciliation)
    requires (snapshot.None? <==> mode == NotApplicable) && (snapshot.Some? ==> o.canonicalRoot.Some?)
    requires ReadyToPublish(s, left, d, toolkit, snapshot, mode, o, payload, builds, rebuilt)
    requires d != Decisions(false, false, false, false, false) || (snapshot.Some? && !RootRecorded(s, o.canonicalRoot.value))
    ensures Outcome(s, snapshot, mode, o, builds, r)
    ensures r.Returned? && r.payload == payload && r.decisions == d
    ensures OnlyDecided(s, snapshot, mode, o, builds, r) && AsAsked(r.site, snapshot, o, payload)
  {
    var site := Published(left, rebuilt, d, snapshot, mode, payload, o);
    r := Returned(true, site, d, payload, VerifiedPayloadCache(site));
    BaseAfter(s, left, d, toolkit, snapshot, mode, o, payload, builds, rebuilt);
    if snapshot.Some? {
      NothingDecided(s, d, toolkit, snapshot.value, o.canonicalRoot.value, mode, o, payload);
      Converges(s, left, d, toolkit, snapshot.value, mode, o, payload, builds, rebuilt);
    }
    PublishedOnlyDecided(s, left, d, toolkit, snapshot, mode, o, payload, builds, rebuilt);
    PublishedAsAsked(s, left, d, toolkit, snapshot, mode, o, payload, builds, rebuilt);
  }

  lemma PublishedOnlyDecided(
    s: Site, left: Site, d: Decisions, toolkit: string, snapshot: Option<CompileInputs>, mode: PayloadMode, o: Options,
    payload: Option<Payload>, builds: Builds, rebuilt: Rebuilt)
    requires (snapshot.None? <==> mode == NotApplicable) && (snapshot.Some? ==> o.canonicalRoot.Some?)
    requires ReadyToPublish(s, left, d, toolkit, snapshot, mode, o, payload, builds, rebuilt)
    ensures var site := Published(left, rebuilt, d, snapshot, mode, payload, o);
      OnlyDecided(s, snapshot, mode, o, builds, Returned(true, site, d, payload, VerifiedPayloadCache(site)))
  {
    PublishedProducts(s, left, d, snapshot, mode, o, payload, builds, rebuilt);
    PublishedRecords(s, left, d, snapshot, mode, o, payload, rebuilt);
  }

  lemma PublishedProducts(
    s: Site, left: Site, d: Decisions, snapshot: Option<CompileInputs>, mode: PayloadMode, o: Options,
    payload: Option<Payload>, builds: Builds, rebuilt: Rebuilt)
    requires left == s.(workspaceDol := left.workspaceDol, workspaceRel := left.workspaceRel)
    requires (rebuilt.base.Some? <==> d.rebuildBase) && (rebuilt.retro.Some? <==> d.rebuildRetro)
    requires d.rebuildBase ==> builds.base.Some? && ProducedBy(builds.base.value, rebuilt.base.value)
    requires d.rebuildRetro ==> builds.retro.Some? && ProducedBy(builds.retro.value, rebuilt.retro.value)
    ensures ProductsAsDecided(s, d, builds, Published(left, rebuilt, d, snapshot, mode, payload, o))
  {
  }

  lemma PublishedRecords(
    s: Site, left: Site, d: Decisions, snapshot: Option<CompileInputs>, mode: PayloadMode, o: Options,
    payload: Option<Payload>, rebuilt: Rebuilt)
    requires left == s.(workspaceDol := left.workspaceDol, workspaceRel := left.workspaceRel)
    requires (rebuilt.base.Some? <==> d.rebuildBase) && (rebuilt.retro.Some? <==> d.rebuildRetro)
    ensures var site := Published(left, rebuilt, d, snapshot, mode, payload, o);
      RecordsAsDecided(s, snapshot, mode, o, Returned(true, site, d, payload, VerifiedPayloadCache(site)))
  {
  }

  lemma RecordedAsAsked(site: Site, snapshot: Option<CompileInputs>, o: Options, payload: Option<Payload>)
    requires !BaseInputDrift(site, o)
    requires snapshot.Some? ==>
      && !RetroInputDrift(site, o) && o.canonicalRoot.Some? && RootRecorded(site, o.canonicalRoot.value)
      && (payload.Some? ==> MatchesPayloadSnapshot(site, payload.value) && CachedPayloadMatches(site, payload.value))
    ensures AsAsked(site, snapshot, o, payload)
  {
  }

  lemma PublishedAsAsked(
    s: Site, left: Site, d: Decisions, toolkit: string, snapshot: Option<CompileInputs>, mode: PayloadMode, o: Options,
    payload: Option<Payload>, builds: Builds, rebuilt: Rebuilt)
    requires (snapshot.None? <==> mode == NotApplicable) && (snapshot.Some? ==> o.canonicalRoot.Some?)
    requires ReadyToPublish(s, left, d, toolkit, snapshot, mode, o, payload, builds, rebuilt)
    ensures AsAsked(Published(left, rebuilt, d, snapshot, mode, payload, o), snapshot, o, payload)
  {
    BaseAfter(s, left, d, toolkit, snapshot, mode, o, payload, builds, rebuilt);
    StateFitsAfter(s, left, d, toolkit, snapshot, mode, o, payload, builds, rebuilt);
    if snapshot.Some? {
      PayloadAfter(s, left, d, toolkit, snapshot.value, mode, o, payload, builds, rebuilt);
    }
    RecordedAsAsked(Published(left, rebuilt, d, snapshot, mode, payload, o), snapshot, o, payload);
  }

  function VerifiedPayloadCache(s: Site): Option<bool> {
    if s.retro.executable.Some? && ResolvePayloadMode(s) == Online then Some(true) else None
  }

  method RebuildProducts(
    s: Site, d: Decisions, toolkit: string, snapshot: Option<CompileInputs>, mode: PayloadMode, o: Options,
    payload: Option<Payload>, builds: Builds)
    returns (error: Option<RepairError>, left: Site, rebuilt: Rebuilt)
    requires IsBlank(o.expectedDol) == IsBlank(o.expectedRel)
    requires (d.rebuildRetro ==> snapshot.Some?) && (d.rebuildBase || d.rebuildRetro)
    requires (snapshot.None? <==> mode == NotApplicable) && (mode == Online <==> payload.Some?)
    ensures left == s.(workspaceDol := left.workspaceDol, workspaceRel := left.workspaceRel)
    ensures error != Some(PayloadNotStaged)
    ensures error.None? <==> Buildable(s, d, toolkit, snapshot, mode, o, payload, builds)
    ensures error.Some? ==> Hindered(error.value, s, d, toolkit, snapshot, mode, o, payload, builds)
    ensures error.None? ==> RebuiltAs(s, left, d, toolkit, snapshot, mode, o, payload, builds, rebuilt)
  {
    left, rebuilt := s, Rebuilt(None, None);
    InputsUsableExactly(s, o);
    if !ToolkitVerified(s, toolkit) {
      return Some(ToolkitModified), left, rebuilt;
    }
    var ok;
    ok, left := RefreshTranslationAssets(s, o);
    if !ok {
      return Some(GameInputsUnusable), left, rebuilt;
    }
    if (d.rebuildBase && !BuildAccepted(builds.base)) || (d.rebuildRetro && !BuildAccepted(builds.retro)) {
      return Some(BuildFailed), left, rebuilt;
    }
    var dol, rel := left.workspaceDol.value, left.workspaceRel.value;
    if d.rebuildBase {
      var output := builds.base.value;
      rebuilt := rebuilt.(base := Some(RebuiltProduct(output, BaseFingerprint(toolkit, dol, rel, output.executable.value.sha))));
    }
    if d.rebuildRetro {
      var output := builds.retro.value;
      ConsumedExactly(s, output.localBuild.value, snapshot.value, mode, payload);
      if !RetroBuildConsumed(output.localBuild.value, dol, rel, snapshot.value.codePul, mode, payload) {
        return Some(PayloadNotConsumed), left, rebuilt;
      }
      rebuilt := rebuilt.(
        retro := Some(RebuiltProduct(output, RetroFingerprint(toolkit, dol, rel, output.executable.value.sha,
                                                              snapshot.value, mode, payload))));
    }
    error := None;
  }

  predicate ToolkitVerified(s: Site, toolkit: string) {
    && s.toolkitState.Some? && s.toolkitState.value.schemaVersion == 2
    && !IsBlank(s.toolkitState.value.toolkit) && s.toolkitState.value.toolkit == toolkit && s.toolkitContent == toolkit
  }

  /** Everything a compilation needs: an unmodified toolkit, usable inputs, and builds
      that pass the checks made of them. */
  predicate Buildable(
    s: Site, d: Decisions, toolkit: string, snapshot: Option<CompileInputs>, mode: PayloadMode, o: Options,
    payload: Option<Payload>, builds: Builds)
  {
    && ToolkitVerified(s, toolkit) && InputsUsable(s, o)
    && (d.rebuildBase ==> BuildAccepted(builds.base))
    && (d.rebuildRetro ==>
          && snapshot.Some? && BuildAccepted(builds.retro)
          && RetroBuildConsumed(builds.retro.value.localBuild.value, s.gameDol.value, s.gameRel.value,
                                snapshot.value.codePul, mode, payload))
  }

  /** A decided repair can be carried out. */
  predicate Repairable(
    s: Site, d: Decisions, toolkit: string, snapshot: Option<CompileInputs>, mode: PayloadMode, o: Options,
    payload: Option<Payload>, builds: Builds)
  {
    && (d.rebuildBase || d.rebuildRetro ==> Buildable(s, d, toolkit, snapshot, mode, o, payload, builds))
    && (d.syncBaseAssets || d.syncRetroAssets ==> AssetsSyncable(s, toolkit))
  }

  /** What a successful compilation leaves to be published. */
  predicate RebuiltAs(
    s: Site, left: Site, d: Decisions, toolkit: string, snapshot: Option<CompileInputs>, mode: PayloadMode, o: Options,
    payload: Option<Payload>, builds: Builds, rebuilt: Rebuilt)
  {
    && s.gameDol.Some? && s.gameRel.Some? && left.workspaceDol.Some? && left.workspaceRel.Some?
    && Same(left.workspaceDol.value, s.gameDol.value) && Same(left.workspaceRel.value, s.gameRel.value)
    && (IsBlank(o.expectedDol) ==>
          && s.stateFile.StateRead?
          && Same(s.gameDol.value, s.stateFile.state.dol) && Same(s.gameRel.value, s.stateFile.state.rel))
    && (!IsBlank(o.expectedDol) ==>
          Same(s.gameDol.value, o.expectedDol) && Same(s.gameRel.value, o.expectedRel))
    && (rebuilt.base.Some? <==> d.rebuildBase) && (rebuilt.retro.Some? <==> d.rebuildRetro)
    && (d.rebuildBase ==>
          && BuildAccepted(builds.base)
          && rebuilt.base.value == RebuiltProduct(builds.base.value, BaseFingerprint(
               toolkit, left.workspaceDol.value, left.workspaceRel.value, builds.base.value.executable.value.sha)))
    && (d.rebuildRetro ==>
          && snapshot.Some? && BuildAccepted(builds.retro)
          && rebuilt.retro.value == RebuiltProduct(builds.retro.value, RetroFingerprint(
               toolkit, left.workspaceDol.value, left.workspaceRel.value, builds.retro.value.executable.value.sha,
               snapshot.value, mode, payload))
          && RetroBuildConsumed(builds.retro.value.localBuild.value, left.workspaceDol.value, left.workspaceRel.value,
                                snapshot.value.codePul, mode, payload))
  }

  /** A repair of the base product alone, where Retro Rewind neither is nor was installed: it
      never asks for a folder, leaves Retro Rewind alone, and returns exactly when the base
      product needs no rebuild or can be rebuilt, and its support files fit or can be copied. */
  method RepairBaseOnly(s: Site, o: Options, builds: Builds) returns (r: Reconciliation)
    requires !IsBlank(s.root) && s.retro.executable.None? && !RecordsRetro(s)
    ensures r.Threw? ==> r.error != RetroNeedsItsFolder
    ensures r.Returned? ==> r.site.retro == s.retro && !r.decisions.rebuildRetro
    ensures r.Returned? <==>
      && (s.base.executable.Some? || !s.stateFile.NoFile?) && s.hasToolkit && !o.productsRunning
      && IsBlank(o.expectedDol) == IsBlank(o.expectedRel)
      && s.toolkitState.Some? && s.toolkitState.value.schemaVersion == 2
      && !IsBlank(s.toolkitState.value.toolkit) && s.toolkitState.value.package != ""
      && var toolkit := s.toolkitState.value.toolkit;
         if CheckBaseCore(s, toolkit) == Current && !Drifts(s.base, o) then
           SupportFilesFit(s, s.base, toolkit) ||
           (!IsBlank(s.toolkitState.value.runtimeAssets) && s.workspaceAssets == Some(s.toolkitState.value.runtimeAssets))
         else s.toolkitContent == toolkit && DiscUsable(s, o) && OutputUsable(builds.base)
  {
    ghost var toolkit := ResolveToolkitFingerprint(s);
    ToolkitIdentified(s);
    FolderExactly(s, None, o);
    if IsBlank(o.expectedDol) == IsBlank(o.expectedRel) && !IsBlank(toolkit) {
      BaseOnlyDecisions(s, toolkit, o, builds);
    }
    r := Reconcile(s, None, NotApplicable, o, Unavailable, builds);
    if r.Returned? {
      RepairableExactly(s, r.decisions, toolkit, None, NotApplicable, o, None, builds);
    }
  }

  lemma BaseOnlyDecisions(s: Site, toolkit: string, o: Options, builds: Builds)
    requires s.retro.executable.None? && IsBlank(o.expectedDol) == IsBlank(o.expectedRel) && !IsBlank(toolkit)
    ensures forall d | Decided(s, toolkit, None, NotApplicable, o, None, d) ::
      && !d.rebuildRetro && !d.syncRetroAssets && !d.syncPayload
      && (Repairable(s, d, toolkit, None, NotApplicable, o, None, builds) <==>
            if CheckBaseCore(s, toolkit) == Current && !Drifts(s.base, o) then
              SupportFilesFit(s, s.base, toolkit) || AssetsSyncable(s, toolkit)
            else ToolkitVerified(s, toolkit) && DiscUsable(s, o) && OutputUsable(builds.base))
  {
    forall d | Decided(s, toolkit, None, NotApplicable, o, None, d)
      ensures !d.rebuildRetro && !d.syncRetroAssets && !d.syncPayload
      ensures Repairable(s, d, toolkit, None, NotApplicable, o, None, builds) <==>
              if CheckBaseCore(s, toolkit) == Current && !Drifts(s.base, o) then
                SupportFilesFit(s, s.base, toolkit) || AssetsSyncable(s, toolkit)
              else ToolkitVerified(s, toolkit) && DiscUsable(s, o) && OutputUsable(builds.base)
    {
      DecidedExactly(s, toolkit, None, NotApplicable, o, None, d);
      InputsUsableExactly(s, o);
    }
  }

  /** The payload a repair used is the one the next repair gets, even when the
      service is then out of reach. */
  lemma PayloadObtainedAgain(
    site: Site, toolkit: string, inputs: CompileInputs, root: string, mode: PayloadMode, o: Options, payload: Option<Payload>)
    requires NothingToDo(site, toolkit, inputs, root, mode, o, payload) && BothCurrent(site, toolkit, inputs)
    requires mode == Online <==> payload.Some?
    ensures ObtainPayload(site, mode, Unavailable) == payload
  {
  }

  /** A second repair with the same inputs finds nothing left to publish. */
  method RepairTwice(
    s: Site, inputs: CompileInputs, mode: PayloadMode, o: Options, download: Download, builds: Builds,
    downloadAgain: Download, buildsAgain: Builds)
    returns (first: Reconciliation, second: Reconciliation)
    requires mode != NotApplicable && !IsBlank(s.root)
    requires downloadAgain == download || downloadAgain == Unavailable
    ensures first.Returned? && Recognisable(s, first.decisions, builds, first.payload) ==>
      second.Returned? && !second.committed && second.site == first.site
  {
    first := RepairOnce(s, inputs, mode, o, download, builds);
    second := first;
    if first.Returned? {
      if Recognisable(s, first.decisions, builds, first.payload) {
        PayloadObtainedAgain(first.site, ResolveToolkitFingerprint(s), inputs, o.canonicalRoot.value, mode, o, first.payload);
      }
      second := RepairAgain(first.site, inputs, mode, o, downloadAgain, buildsAgain, first.payload);
    }
  }

  method RepairOnce(s: Site, inputs: CompileInputs, mode: PayloadMode, o: Options, download: Download, builds: Builds)
    returns (r: Reconciliation)
    requires mode != NotApplicable && !IsBlank(s.root)
    ensures Outcome(s, Some(inputs), mode, o, builds, r)
    ensures r.Returned? ==> Admitted(s, Some(inputs), mode, o, download) && r.payload == ObtainPayload(s, mode, download)
  {
    r := Reconcile(s, Some(inputs), mode, o, download, builds);
  }

  /** A repair that finds nothing to do, if nothing is. */
  method RepairAgain(
    s: Site, inputs: CompileInputs, mode: PayloadMode, o: Options, download: Download, builds: Builds,
    payload: Option<Payload>)
    returns (r: Reconciliation)
    requires mode != NotApplicable && !IsBlank(s.root)
    ensures
      && Admitted(s, Some(inputs), mode, o, download) && ObtainPayload(s, mode, download) == payload
      && NothingToDo(s, ResolveToolkitFingerprint(s), inputs, o.canonicalRoot.value, mode, o, payload)
      ==> r.Returned? && !r.committed && r.site == s
  {
    r := Reconcile(s, Some(inputs), mode, o, download, builds);
  }

  /** An installation whose Retro Rewind fingerprint records length bytes for its
      payload, while the payload with that hash has 400 bytes. */
  function ExampleSite(length: int): Site {
    var payload: Payload := Payload("p", 400);
    var executable := Executable(MINIMUM_EXECUTABLE_LENGTH, "x");
    var base := Product(
      Some(executable), Some(BaseFingerprint("t", "d", "r", "x")),
      Some(LocalBuild(1, "base", "d", "r", None, None, None, None)), Some("a"));
    var retro := Product(
      Some(executable),
      Some(RetroFingerprint("t", "d", "r", "x", CompileInputs("c", "i"), Online, Some(payload)).(payloadLength := length)),
      Some(LocalBuild(1, "retro-rewind", "d", "r", Some("c"), Some("downloaded"), Some("p"), Some(length))), Some("a"));
    Site("C", true, Some(ToolkitState(2, "t", "k", "a")), "t", Some("a"),
         StateRead(InstallState(1, "C", true, "d", "r", "c", "i", "downloaded", "p", length, "rr")),
         base, retro, Some("d"), Some("r"), true, Some("d"), Some("r"), Some(payload), Some("rr"))
  }

  lemma ExampleProvenance(length: int)
    ensures var s := ExampleSite(length);
      && ProvenanceHolds(s, s.base, "base", s.base.fingerprint.value, s.stateFile.state)
      && ProvenanceHolds(s, s.retro, "retro-rewind", s.retro.fingerprint.value, s.stateFile.state)
  {
  }

  /** With the length recorded wrongly, a repair finds nothing to do while every
      inspection goes on answering that the payload has changed. */
  lemma StaleLengthIsNeverRepaired()
    ensures var s, inputs, o := ExampleSite(401), CompileInputs("c", "i"), Options("", "", Some("rr"), false);
      && Admitted(s, Some(inputs), Online, o, Downloaded(Payload("p", 400)))
      && NothingToDo(s, "t", inputs, "rr", Online, o, Some(Payload("p", 400)))
      && CheckRetroRewind(s, "t", Some(inputs), false, None) == PayloadChanged
  {
    ExampleProvenance(401);
  }

  /** Without fst.bin no product is ever current, whatever else is in order. */
  lemma NothingCurrentWithoutFst(
    site: Site, toolkit: string, canonical: Option<CompileInputs>, canonicalError: bool, known: Option<bool>)
    requires !site.gameFst
    ensures CheckBase(site, toolkit) != Current
    ensures CheckRetroRewind(site, toolkit, canonical, canonicalError, known) != Current
  {
  }

  /** A repair cannot bring fst.bin back: on every installation without it, a repair that
      returns leaves both products not current, and the next one finds the same. */
  method RepairWithoutFst(
    s: Site, snapshot: Option<CompileInputs>, mode: PayloadMode, o: Options, download: Download, builds: Builds)
    returns (r: Reconciliation)
    requires snapshot.None? <==> mode == NotApplicable
    requires !IsBlank(s.root) && !s.gameFst
    ensures r.Returned? ==>
      && !r.site.gameFst && r.decisions.rebuildBase && r.committed
      && CheckBase(r.site, ResolveToolkitFingerprint(s)) != Current
      && CheckRetroRewind(r.site, ResolveToolkitFingerprint(s), snapshot, false, None) != Current
  {
    r := Reconcile(s, snapshot, mode, o, download, builds);
    if r.Returned? {
      NothingCurrentWithoutFst(r.site, ResolveToolkitFingerprint(s), snapshot, false, None);
    }
  }
}
