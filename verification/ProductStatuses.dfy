/** When the inspection gives which answer, read off what an installation holds. */
module ProductStatuses {
  import opened Primitives
  import opened ProductInspection
  import opened Wrappers

  /** The same character, or the same letter from A to Z in the other case. */
  predicate SameLetter(c: char, d: char) {
    || c == d
    || ('A' <= c <= 'Z' && d as int == c as int + 32)
    || ('A' <= d <= 'Z' && c as int == d as int + 32)
  }

  /** Equal but for the case of the letters A to Z. */
  lemma SameExactly(a: string, b: string)
    ensures Same(a, b) <==> |a| == |b| && forall i :: 0 <= i < |a| ==> SameLetter(a[i], b[i])
  {
    FoldIs(a);
    FoldIs(b);
    if Same(a, b) {
      assert forall i :: 0 <= i < |a| ==> Fold(a)[i] == Fold(b)[i] && SameLetter(a[i], b[i]);
    }
    if |a| == |b| && forall i :: 0 <= i < |a| ==> SameLetter(a[i], b[i]) {
      assert forall i :: 0 <= i < |a| ==> Fold(a)[i] == Fold(b)[i];
    }
  }

  lemma {:induction false} FoldIs(s: string)
    ensures |Fold(s)| == |s| && forall i :: 0 <= i < |s| ==> Fold(s)[i] == FoldChar(s[i])
  {
    if s != "" {
      FoldIs(s[1..]);
    }
  }

  lemma {:induction false} BlankExactly(s: string)
    ensures IsBlank(s) <==> forall i :: 0 <= i < |s| ==> IsWhitespace(s[i])
  {
    if s != "" {
      BlankExactly(s[1..]);
      assert forall i :: 1 <= i < |s| ==> s[i] == s[1..][i - 1];
    }
  }

  /** The state file belongs to this installation. */
  predicate OwnState(s: Site) {
    && s.stateFile.StateRead? && s.stateFile.state.schemaVersion == 1
    && !IsBlank(s.stateFile.state.installDir) && Same(s.stateFile.state.installDir, s.root)
  }

  /** The state file of this installation says that Retro Rewind is installed. */
  predicate RecordsRetro(s: Site) {
    OwnState(s) && s.stateFile.state.retroInstalled
  }

  /** The executable has at least 64 KiB. */
  predicate HasExecutable(p: Product) {
    p.executable.Some? && p.executable.value.length >= 65536
  }

  predicate HasFingerprint(p: Product) {
    p.fingerprint.Some? && p.fingerprint.value.schemaVersion == 1
  }

  predicate BuiltBy(p: Product, toolkit: string) {
    HasFingerprint(p) && p.fingerprint.value.toolkit == toolkit
  }

  /** The toolkit is there and known by a name. */
  predicate ToolkitThere(s: Site, toolkit: string) {
    s.hasToolkit && !IsBlank(toolkit)
  }

  /** The files of the disc are complete, and they, the record of the product and the
      state file name the same two hashes. */
  predicate MadeFromTheDisc(s: Site, f: Fingerprint) {
    && s.gameFst && s.gameDol.Some? && s.gameRel.Some? && s.stateFile.StateRead?
    && Same(s.gameDol.value, f.dol) && Same(s.gameDol.value, s.stateFile.state.dol)
    && Same(s.gameRel.value, f.rel) && Same(s.gameRel.value, s.stateFile.state.rel)
  }

  /** The executable is the one that was recorded when it was built. */
  predicate Genuine(p: Product, f: Fingerprint) {
    HasExecutable(p) && Same(p.executable.value.sha, f.executable)
  }

  /** The build script's own record names the same inputs. */
  predicate ScriptAgrees(p: Product, f: Fingerprint, profile: string) {
    && p.localBuild.Some? && p.localBuild.value.schemaVersion == 1 && p.localBuild.value.profile == profile
    && Same(p.localBuild.value.dol, f.dol) && Same(p.localBuild.value.rel, f.rel)
  }

  /** For Retro Rewind it also names the same payload, where nothing stands for no payload. */
  predicate ScriptAgreesOnPayload(p: Product, f: Fingerprint) {
    && p.localBuild.Some? && p.localBuild.value.payloadMode == Some(f.payloadMode)
    && (match p.localBuild.value.payloadSha
        case Some(sha) => Same(sha, f.payloadSha)
        case None => f.payloadSha == "")
    && (match p.localBuild.value.payloadLength
        case Some(length) => length == f.payloadLength
        case None => f.payloadLength == 0)
  }

  /** A product whose provenance holds, as the inspection wants it. */
  predicate Proven(s: Site, p: Product, profile: string) {
    && HasFingerprint(p) && p.fingerprint.value.profile == profile
    && !IsBlank(p.fingerprint.value.dol) && !IsBlank(p.fingerprint.value.rel) && !IsBlank(p.fingerprint.value.executable)
    && Genuine(p, p.fingerprint.value) && MadeFromTheDisc(s, p.fingerprint.value)
    && ScriptAgrees(p, p.fingerprint.value, profile)
  }

  /** The support files beside the product are those of the installed toolkit. */
  predicate SupportFilesFit(s: Site, p: Product, toolkit: string) {
    && s.toolkitState.Some? && s.toolkitState.value.schemaVersion == 2 && s.toolkitState.value.toolkit == toolkit
    && !IsBlank(s.toolkitState.value.runtimeAssets) && p.runtimeAssets == Some(s.toolkitState.value.runtimeAssets)
  }

  /** The toolkit is known by its fingerprint exactly when its state file is of version 2
      and names both it and its package. */
  lemma ToolkitIdentified(s: Site)
    ensures var named := s.hasToolkit && s.toolkitState.Some? && s.toolkitState.value.schemaVersion == 2
                         && s.toolkitState.value.toolkit != "" && s.toolkitState.value.package != "";
      ResolveToolkitFingerprint(s) == if named then s.toolkitState.value.toolkit else ""
  {
  }

  lemma EmptySame(s: string)
    ensures Same("", s) <==> s == ""
  {
    SameExactly("", s);
  }

  lemma ProvenExactly(s: Site, p: Product, profile: string)
    requires HasFingerprint(p) && OwnState(s) && (profile == "base" || profile == "retro-rewind")
    ensures ProvenanceHolds(s, p, profile, p.fingerprint.value, s.stateFile.state) <==>
            && Proven(s, p, profile)
            && (profile == "retro-rewind" ==> ScriptAgreesOnPayload(p, p.fingerprint.value))
  {
    EmptySame(p.fingerprint.value.payloadSha);
  }

  // The base product

  /** Every answer about the base product, and when it is given. */
  lemma BaseStatusExactly(s: Site, toolkit: string)
    ensures var status := CheckBaseCore(s, toolkit);
      var inspected := HasExecutable(s.base) && ToolkitThere(s, toolkit) && OwnState(s) && HasFingerprint(s.base);
      && (status == Broken <==> !HasExecutable(s.base))
      && (status == ToolkitChanged <==> inspected && s.base.fingerprint.value.toolkit != toolkit)
      && (status == Current <==> inspected && s.base.fingerprint.value.toolkit == toolkit && Proven(s, s.base, "base"))
      && status in {Current, Broken, ToolkitChanged, Blocked}
  {
    if OwnState(s) && HasFingerprint(s.base) {
      ProvenExactly(s, s.base, "base");
    }
  }

  /** The support files only decide between current and broken. */
  lemma BaseFilesExactly(s: Site, toolkit: string)
    ensures CheckBase(s, toolkit) ==
      if CheckBaseCore(s, toolkit) == Current && !SupportFilesFit(s, s.base, toolkit) then Broken
      else CheckBaseCore(s, toolkit)
  {
  }

  // Retro Rewind

  /** The inputs recorded with the product and in the state file agree. */
  predicate InputsRecordedAlike(s: Site, f: Fingerprint) {
    && s.stateFile.StateRead?
    && !IsBlank(f.codePul) && !IsBlank(f.compileInputs)
    && !IsBlank(s.stateFile.state.codePul) && !IsBlank(s.stateFile.state.compileInputs)
    && Same(s.stateFile.state.codePul, f.codePul) && Same(s.stateFile.state.compileInputs, f.compileInputs)
  }

  /** The product is there, by this toolkit, from these discs, with its inputs recorded. */
  predicate RetroProven(s: Site, toolkit: string) {
    && s.retro.executable.Some? && ToolkitThere(s, toolkit) && OwnState(s) && BuiltBy(s.retro, toolkit)
    && Proven(s, s.retro, "retro-rewind") && ScriptAgreesOnPayload(s.retro, s.retro.fingerprint.value)
    && InputsRecordedAlike(s, s.retro.fingerprint.value)
  }

  /** The payload's identity is recorded on both sides, or none was downloaded. */
  predicate PayloadRecorded(s: Site, f: Fingerprint) {
    f.payloadMode == "downloaded" ==>
      && s.stateFile.StateRead?
      && !IsBlank(f.payloadSha) && f.payloadLength > 0
      && !IsBlank(s.stateFile.state.payloadSha) && s.stateFile.state.payloadLength > 0
  }

  /** The cache holds the payload, as an observation says, or as the cached file shows. */
  predicate CacheHolds(s: Site, f: Fingerprint, known: Option<bool>) {
    match known
    case Some(matches) => matches
    case None =>
      && s.payloadCache.Some? && Same(s.payloadCache.value.sha, f.payloadSha)
      && s.payloadCache.value.length == f.payloadLength
  }

  /** Without an executable the product is absent, unless the state file of this installation
      records it: then it is broken, or blocked where the toolkit cannot be used. */
  lemma MissingRetroExactly(
    s: Site, toolkit: string, canonical: Option<CompileInputs>, canonicalError: bool, known: Option<bool>)
    ensures var status := CheckRetroCore(s, toolkit, canonical, canonicalError, known);
      && (status == Absent <==> s.retro.executable.None? && !RecordsRetro(s))
      && (status == Broken <==> s.retro.executable.None? && RecordsRetro(s) && ToolkitThere(s, toolkit))
      && ((s.retro.executable.Some? || RecordsRetro(s)) && !ToolkitThere(s, toolkit) ==> status == Blocked)
  {
  }

  lemma RetroChangedExactly(
    s: Site, toolkit: string, canonical: Option<CompileInputs>, canonicalError: bool, known: Option<bool>)
    ensures var status := CheckRetroCore(s, toolkit, canonical, canonicalError, known);
      var inspected := s.retro.executable.Some? && ToolkitThere(s, toolkit);
      && (status == InputsMissing <==> inspected && canonicalError)
      && (status == ToolkitChanged <==>
            inspected && !canonicalError && HasFingerprint(s.retro) && s.retro.fingerprint.value.toolkit != toolkit)
      && (status == CodePulChanged <==>
            RetroProven(s, toolkit) && !canonicalError
            && canonical.Some? && !Same(canonical.value.codePul, s.retro.fingerprint.value.codePul))
      && (status == CompileInputsChanged <==>
            RetroProven(s, toolkit) && !canonicalError
            && canonical.Some? && Same(canonical.value.codePul, s.retro.fingerprint.value.codePul)
            && !Same(canonical.value.compileInputs, s.retro.fingerprint.value.compileInputs))
  {
    if OwnState(s) && HasFingerprint(s.retro) {
      ProvenExactly(s, s.retro, "retro-rewind");
    }
  }

  /** The product is built from these inputs, as far as they were given. */
  predicate BuiltFrom(s: Site, toolkit: string, canonical: Option<CompileInputs>) {
    && RetroProven(s, toolkit)
    && (canonical.Some? ==>
          && Same(canonical.value.codePul, s.retro.fingerprint.value.codePul)
          && Same(canonical.value.compileInputs, s.retro.fingerprint.value.compileInputs))
  }

  lemma RetroCurrentExactly(
    s: Site, toolkit: string, canonical: Option<CompileInputs>, canonicalError: bool, known: Option<bool>)
    ensures var status := CheckRetroCore(s, toolkit, canonical, canonicalError, known);
      var fits := !canonicalError && BuiltFrom(s, toolkit, canonical) && PayloadRecorded(s, s.retro.fingerprint.value);
      && (status == PayloadChanged <==>
            && fits && s.retro.fingerprint.value.payloadMode == "downloaded"
            && !CacheHolds(s, s.retro.fingerprint.value, known))
      && (status == Current <==>
            && fits
            && (s.retro.fingerprint.value.payloadMode == "downloaded" ==> CacheHolds(s, s.retro.fingerprint.value, known)))
  {
    if OwnState(s) && HasFingerprint(s.retro) {
      ProvenExactly(s, s.retro, "retro-rewind");
    }
  }

  lemma RetroFilesExactly(
    s: Site, toolkit: string, canonical: Option<CompileInputs>, canonicalError: bool, known: Option<bool>)
    ensures CheckRetroRewind(s, toolkit, canonical, canonicalError, known) ==
      if CheckRetroCore(s, toolkit, canonical, canonicalError, known) == Current && !SupportFilesFit(s, s.retro, toolkit)
      then Broken else CheckRetroCore(s, toolkit, canonical, canonicalError, known)
  {
  }
}
