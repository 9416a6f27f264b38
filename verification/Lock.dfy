/** Lock evidence and drift, for any deterministic digest and canonical encoding. */
module Lock {
  import opened Bytes
  import opened Pack
  import opened Compose

  const LOCKFILE_FORMAT := Ascii("invokrum.lock/v1")
  const CANONICALIZATION_FORMAT := Ascii("invokrum.canonical-json/v1")
  const MAX_LOCKFILE_BYTES: nat := 1_048_576
  const MAX_LOCKED_OVERLAYS: nat := 256

  datatype LockedPack = LockedPack(id: Text, schema: Text, digest: Text)

  datatype LockedProfile = LockedProfile(id: Text, digest: Text)

  datatype LockedOverlay = LockedOverlay(class_: Text, id: Text, source: Text, byteLength: nat, digest: Text)

  datatype LockedOutput = LockedOutput(byteLength: nat, digest: Text)

  datatype LockedManifest = LockedManifest(engineInputsDigest: Text, pack: LockedPack, profile: LockedProfile,
                                           overlays: seq<LockedOverlay>, output: LockedOutput)

  datatype Lockfile = Lockfile(format: Text, canonicalization: Text, digestAlgorithm: Text,
                               manifest: LockedManifest, manifestDigest: Text)

  /** What is ever encoded canonically. */
  datatype Material =
    | PackMaterial(pack: OverlayPack)
    | ProfileMaterial(profile: Profile)
    | InputsMaterial(packDigest: Text, profileDigest: Text, overlays: seq<LockedOverlay>)
    | ManifestMaterial(manifest: LockedManifest)
    | LockMaterial(lock: Lockfile)

  /** The injected digester and the canonical encoder, which may refuse. */
  datatype Env = Env(algorithm: Text, digest: Text -> Text, encode: Material -> Option<Text>)

  datatype IntegrityError =
    | UnknownProfileInPack
    | InconsistentComposition
    | Encode
    | LockfileTooLarge
    | TooManyLockedOverlays
    | InvalidIdentity
    | UnsupportedFormat
    | UnsupportedCanonicalization
    | UnsupportedDigestAlgorithm
    | InvalidDigest
    | LockfileIntegrityMismatch

  datatype Drift =
    | PackMetadata
    | ProfileSelection
    | OverlaySet
    | OverlayContent(index: nat)
    | RenderedOutput

  function DigestOf(env: Env, m: Material): Result<Text, IntegrityError> {
    var bytes := env.encode(m);
    if bytes.None? then Failure(Encode) else Success(env.digest(bytes.value))
  }

  // ----- validation

  predicate OverlayIdentitiesOk(o: LockedOverlay) {
    ValidIdentifier(o.class_) && ValidIdentifier(o.id) && ValidPackPath(o.source)
  }

  predicate IdentitiesOk(m: LockedManifest) {
    && ValidIdentifier(m.pack.id) && ValidIdentifier(m.profile.id)
    && forall o :: o in m.overlays ==> OverlayIdentitiesOk(o)
  }

  predicate DigestsOk(lock: Lockfile) {
    var m := lock.manifest;
    && Distribution.ValidDigest(m.engineInputsDigest)
    && Distribution.ValidDigest(m.pack.digest) && Distribution.ValidDigest(m.profile.digest)
    && (forall o :: o in m.overlays ==> Distribution.ValidDigest(o.digest))
    && Distribution.ValidDigest(m.output.digest) && Distribution.ValidDigest(lock.manifestDigest)
  }

  /** `validate_lockfile`. */
  function Validate(lock: Lockfile, env: Env): Option<IntegrityError> {
    var m := lock.manifest;
    if lock.format != LOCKFILE_FORMAT then Some(UnsupportedFormat)
    else if lock.canonicalization != CANONICALIZATION_FORMAT then Some(UnsupportedCanonicalization)
    else if lock.digestAlgorithm != Distribution.SHA256_ALGORITHM || env.algorithm != Distribution.SHA256_ALGORITHM then
      Some(UnsupportedDigestAlgorithm)
    else if |m.overlays| > MAX_LOCKED_OVERLAYS then Some(TooManyLockedOverlays)
    else if !IdentitiesOk(m) then Some(InvalidIdentity)
    else if !DigestsOk(lock) then Some(InvalidDigest)
    else
      var inputs := DigestOf(env, InputsMaterial(m.pack.digest, m.profile.digest, m.overlays));
      if inputs.Failure? then Some(inputs.error)
      else if inputs.value != m.engineInputsDigest then Some(LockfileIntegrityMismatch)
      else
        var manifest := DigestOf(env, ManifestMaterial(m));
        if manifest.Failure? then Some(manifest.error)
        else if manifest.value != lock.manifestDigest then Some(LockfileIntegrityMismatch)
        else None
  }

  // ----- building

  function LockSegments(segments: seq<Segment>, env: Env): (r: seq<LockedOverlay>)
    ensures |r| == |segments|
    ensures forall i :: 0 <= i < |segments| ==>
              r[i] == LockedOverlay(segments[i].class_, segments[i].overlay, segments[i].source,
                                    |segments[i].bytes|, env.digest(segments[i].bytes))
  {
    seq(|segments|, i requires 0 <= i < |segments| =>
      LockedOverlay(segments[i].class_, segments[i].overlay, segments[i].source,
                    |segments[i].bytes|, env.digest(segments[i].bytes)))
  }

  /** `build_lockfile`. */
  function Build(pack: OverlayPack, c: Composition, env: Env): Result<Lockfile, IntegrityError> {
    if env.algorithm != Distribution.SHA256_ALGORITHM then Failure(UnsupportedDigestAlgorithm)
    else if |c.segments| > MAX_LOCKED_OVERLAYS then Failure(TooManyLockedOverlays)
    else if c.manifest.pack != pack.id || c.manifest.schemaFamily != pack.schemaFamily then
      Failure(InconsistentComposition)
    else
      var profile := FindProfile(pack.profiles, c.manifest.profile);
      if profile.None? then Failure(UnknownProfileInPack)
      else
        var packDigest :- DigestOf(env, PackMaterial(pack));
        var profileDigest :- DigestOf(env, ProfileMaterial(profile.value));
        var overlays := LockSegments(c.segments, env);
        var inputs :- DigestOf(env, InputsMaterial(packDigest, profileDigest, overlays));
        var manifest := LockedManifest(inputs, LockedPack(pack.id, pack.schemaFamily, packDigest),
                                       LockedProfile(profile.value.id, profileDigest), overlays,
                                       LockedOutput(|c.context|, env.digest(c.context)));
        var manifestDigest :- DigestOf(env, ManifestMaterial(manifest));
        var lock := Lockfile(LOCKFILE_FORMAT, CANONICALIZATION_FORMAT, env.algorithm, manifest, manifestDigest);
        var problem := Validate(lock, env);
        if problem.Some? then Failure(problem.value)
        else
          var encoded := env.encode(LockMaterial(lock));
          if encoded.None? then Failure(Encode)
          else if |encoded.value| > MAX_LOCKFILE_BYTES then Failure(LockfileTooLarge)
          else Success(lock)
  }

  // ----- drift

  predicate SameOverlaySet(expected: seq<LockedOverlay>, actual: seq<LockedOverlay>) {
    && |expected| == |actual|
    && forall i :: 0 <= i < |expected| ==>
         expected[i].class_ == actual[i].class_ && expected[i].id == actual[i].id
         && expected[i].source == actual[i].source
  }

  predicate ContentDiffers(expected: LockedOverlay, actual: LockedOverlay) {
    expected.byteLength != actual.byteLength || expected.digest != actual.digest
  }

  /** Indices of changed overlays up to the n-th, in order. */
  function ContentDrifts(expected: seq<LockedOverlay>, actual: seq<LockedOverlay>, n: nat): seq<Drift>
    requires n <= |expected| && n <= |actual|
  {
    if n == 0 then []
    else
      ContentDrifts(expected, actual, n - 1)
      + if ContentDiffers(expected[n - 1], actual[n - 1]) then [OverlayContent(n - 1)] else []
  }

  function OverlayDrifts(expected: seq<LockedOverlay>, actual: seq<LockedOverlay>): seq<Drift> {
    if SameOverlaySet(expected, actual) then ContentDrifts(expected, actual, |expected|) else [OverlaySet]
  }

  function Drifts(lock: LockedManifest, current: LockedManifest): seq<Drift> {
    (if lock.pack != current.pack then [PackMetadata] else [])
    + (if lock.profile != current.profile then [ProfileSelection] else [])
    + OverlayDrifts(lock.overlays, current.overlays)
    + (if lock.output != current.output then [RenderedOutput] else [])
  }

  // ----- the same checks, statement by statement

  /** `validate_identities`. */
  method ValidateIdentities(m: LockedManifest) returns (ok: bool)
    ensures ok == IdentitiesOk(m)
  {
    if !ValidIdentifier(m.pack.id) {
      return false;
    }
    if !ValidIdentifier(m.profile.id) {
      return false;
    }
    for i := 0 to |m.overlays|
      invariant forall k :: 0 <= k < i ==> OverlayIdentitiesOk(m.overlays[k])
    {
      assert m.overlays[i] in m.overlays;
      if !ValidIdentifier(m.overlays[i].class_) {
        return false;
      }
      if !ValidIdentifier(m.overlays[i].id) {
        return false;
      }
      if !ValidPackPath(m.overlays[i].source) {
        return false;
      }
    }
    return true;
  }

  /** `validate_digests`: the digests of a lock one after another. */
  method ValidateDigests(lock: Lockfile) returns (ok: bool)
    ensures ok == DigestsOk(lock)
  {
    var m := lock.manifest;
    var before := [m.engineInputsDigest, m.pack.digest, m.profile.digest];
    var after := [m.output.digest, lock.manifestDigest];
    for i := 0 to 3
      invariant forall k :: 0 <= k < i ==> Distribution.ValidDigest(before[k])
    {
      if !Distribution.ValidDigest(before[i]) {
        return false;
      }
    }
    assert Distribution.ValidDigest(before[0]) && Distribution.ValidDigest(before[1])
           && Distribution.ValidDigest(before[2]);
    for i := 0 to |m.overlays|
      invariant forall k :: 0 <= k < i ==> Distribution.ValidDigest(m.overlays[k].digest)
    {
      assert m.overlays[i] in m.overlays;
      if !Distribution.ValidDigest(m.overlays[i].digest) {
        return false;
      }
    }
    return Distribution.ValidDigest(after[0]) && Distribution.ValidDigest(after[1]);
  }

  /** `validate_lockfile`. */
  method ValidateLockfile(lock: Lockfile, env: Env) returns (problem: Option<IntegrityError>)
    ensures problem == Validate(lock, env)
  {
    hide IdentitiesOk, DigestsOk;
    if lock.format != Ascii("invokrum.lock/v1") {
      return Some(UnsupportedFormat);
    }
    if lock.canonicalization != Ascii("invokrum.canonical-json/v1") {
      return Some(UnsupportedCanonicalization);
    }
    if lock.digestAlgorithm != Ascii("sha256") || env.algorithm != Ascii("sha256") {
      return Some(UnsupportedDigestAlgorithm);
    }
    if |lock.manifest.overlays| > 256 {
      return Some(TooManyLockedOverlays);
    }
    var identities := ValidateIdentities(lock.manifest);
    if !identities {
      return Some(InvalidIdentity);
    }
    var digests := ValidateDigests(lock);
    if !digests {
      return Some(InvalidDigest);
    }
    var inputs := env.encode(InputsMaterial(lock.manifest.pack.digest, lock.manifest.profile.digest,
                                            lock.manifest.overlays));
    if inputs.None? {
      return Some(Encode);
    }
    if env.digest(inputs.value) != lock.manifest.engineInputsDigest {
      return Some(LockfileIntegrityMismatch);
    }
    var manifest := env.encode(ManifestMaterial(lock.manifest));
    if manifest.None? {
      return Some(Encode);
    }
    if env.digest(manifest.value) != lock.manifestDigest {
      return Some(LockfileIntegrityMismatch);
    }
    return None;
  }

  /** `build_lockfile`. */
  method BuildLockfile(pack: OverlayPack, c: Composition, env: Env) returns (r: Result<Lockfile, IntegrityError>)
    ensures r == Build(pack, c, env)
  {
    hide Validate, FindProfile;
    if env.algorithm != Ascii("sha256") {
      return Failure(UnsupportedDigestAlgorithm);
    }
    if |c.segments| > 256 {
      return Failure(TooManyLockedOverlays);
    }
    if c.manifest.pack != pack.id || c.manifest.schemaFamily != pack.schemaFamily {
      return Failure(InconsistentComposition);
    }
    var profile := FindProfile(pack.profiles, c.manifest.profile);
    if profile.None? {
      return Failure(UnknownProfileInPack);
    }
    var packBytes, profileBytes := env.encode(PackMaterial(pack)), env.encode(ProfileMaterial(profile.value));
    if packBytes.None? || profileBytes.None? {
      return Failure(Encode);
    }
    var packDigest, profileDigest := env.digest(packBytes.value), env.digest(profileBytes.value);
    var overlays: seq<LockedOverlay> := [];
    for i := 0 to |c.segments|
      invariant overlays == LockSegments(c.segments, env)[..i]
    {
      var segment := c.segments[i];
      overlays := overlays + [LockedOverlay(segment.class_, segment.overlay, segment.source, |segment.bytes|,
                                            env.digest(segment.bytes))];
    }
    assert LockSegments(c.segments, env)[..|c.segments|] == LockSegments(c.segments, env);
    var inputs := env.encode(InputsMaterial(packDigest, profileDigest, overlays));
    if inputs.None? {
      return Failure(Encode);
    }
    var manifest := LockedManifest(env.digest(inputs.value), LockedPack(pack.id, pack.schemaFamily, packDigest),
                                   LockedProfile(profile.value.id, profileDigest), overlays,
                                   LockedOutput(|c.context|, env.digest(c.context)));
    var manifestBytes := env.encode(ManifestMaterial(manifest));
    if manifestBytes.None? {
      return Failure(Encode);
    }
    var lock := Lockfile(Ascii("invokrum.lock/v1"), Ascii("invokrum.canonical-json/v1"), env.algorithm, manifest,
                         env.digest(manifestBytes.value));
    var problem := ValidateLockfile(lock, env);
    if problem.Some? {
      return Failure(problem.value);
    }
    var encoded := env.encode(LockMaterial(lock));
    if encoded.None? {
      return Failure(Encode);
    }
    if |encoded.value| > 1_048_576 {
      return Failure(LockfileTooLarge);
    }
    return Success(lock);
  }

  /** `verify_with`. */
  method VerifyWith(lock: Lockfile, pack: OverlayPack, c: Composition, env: Env)
    returns (r: Result<seq<Drift>, IntegrityError>)
    ensures r == if Validate(lock, env).Some? then Failure(Validate(lock, env).value)
                 else match Build(pack, c, env)
                      case Success(current) => Success(Drifts(lock.manifest, current.manifest))
                      case Failure(error) => Failure(error)
  {
    hide Validate, Build;
    var problem := ValidateLockfile(lock, env);
    if problem.Some? {
      return Failure(problem.value);
    }
    var built := BuildLockfile(pack, c, env);
    if built.Failure? {
      return Failure(built.error);
    }
    var current := built.value;
    var drifts: seq<Drift> := [];
    if lock.manifest.pack != current.manifest.pack {
      drifts := drifts + [PackMetadata];
    }
    if lock.manifest.profile != current.manifest.profile {
      drifts := drifts + [ProfileSelection];
    }
    var expected, actual := lock.manifest.overlays, current.manifest.overlays;
    ghost var before := drifts;
    assert before == (if lock.manifest.pack != current.manifest.pack then [PackMetadata] else [])
                     + (if lock.manifest.profile != current.manifest.profile then [ProfileSelection] else []);
    if SameOverlaySet(expected, actual) {
      var index := 0;
      while index < |expected|
        invariant 0 <= index <= |expected|
        invariant drifts == before + ContentDrifts(expected, actual, index)
      {
        if ContentDiffers(expected[index], actual[index]) {
          drifts := drifts + [OverlayContent(index)];
        }
        index := index + 1;
      }
    } else {
      drifts := drifts + [OverlaySet];
    }
    assert drifts == before + OverlayDrifts(expected, actual);
    if lock.manifest.output != current.manifest.output {
      drifts := drifts + [RenderedOutput];
    }
    assert drifts == Drifts(lock.manifest, current.manifest);
    return Success(drifts);
  }

  // ----- what drift means

  lemma {:induction false} ContentDriftsFound(expected: seq<LockedOverlay>, actual: seq<LockedOverlay>, n: nat)
    requires n <= |expected| && n <= |actual|
    ensures forall d :: d in ContentDrifts(expected, actual, n) <==>
              d.OverlayContent? && d.index < n && ContentDiffers(expected[d.index], actual[d.index])
  {
    if n > 0 {
      ContentDriftsFound(expected, actual, n - 1);
    }
  }

  lemma OverlayDriftsDecide(expected: seq<LockedOverlay>, actual: seq<LockedOverlay>)
    ensures OverlayDrifts(expected, actual) == [] <==> expected == actual
  {
    if SameOverlaySet(expected, actual) {
      var drifts := ContentDrifts(expected, actual, |expected|);
      ContentDriftsFound(expected, actual, |expected|);
      if drifts == [] {
        forall i | 0 <= i < |expected|
          ensures expected[i] == actual[i]
        {
          assert OverlayContent(i) !in drifts;
        }
      } else {
        assert drifts[0] in drifts;
      }
    }
  }

  /** The four compared parts of a manifest agree exactly when no drift is reported. */
  lemma DriftsDecide(lock: LockedManifest, current: LockedManifest)
    ensures Drifts(lock, current) == [] <==>
            lock.pack == current.pack && lock.profile == current.profile && lock.overlays == current.overlays
            && lock.output == current.output
  {
    OverlayDriftsDecide(lock.overlays, current.overlays);
    hide OverlayDrifts;
  }

  /** A valid lock's formats, algorithm and both derived digests follow from the rest of it. */
  lemma ValidLockIsDetermined(a: Lockfile, b: Lockfile, env: Env)
    requires Validate(a, env).None? && Validate(b, env).None?
    requires a.manifest.pack == b.manifest.pack && a.manifest.profile == b.manifest.profile
    requires a.manifest.overlays == b.manifest.overlays && a.manifest.output == b.manifest.output
    ensures a == b
  {
    hide IdentitiesOk, DigestsOk;
  }

  lemma BuiltIsValid(pack: OverlayPack, c: Composition, env: Env)
    requires Build(pack, c, env).Success?
    ensures Validate(Build(pack, c, env).value, env).None?
  {
    hide Validate, LockSegments;
  }

  /**
   Exactly these locks are valid: the v1 formats and algorithm, few enough
   overlays, well-formed names and digests throughout, and two derived digests
   that are those of what they cover.
   */
  lemma ValidLocks(lock: Lockfile, env: Env)
    ensures var m := lock.manifest;
            var inputs, manifest := env.encode(InputsMaterial(m.pack.digest, m.profile.digest, m.overlays)),
                                    env.encode(ManifestMaterial(m));
            Validate(lock, env).None? <==>
            && lock.format == Ascii("invokrum.lock/v1") && lock.canonicalization == Ascii("invokrum.canonical-json/v1")
            && lock.digestAlgorithm == Ascii("sha256") && env.algorithm == Ascii("sha256")
            && |m.overlays| <= 256
            && ValidIdentifier(m.pack.id) && ValidIdentifier(m.profile.id)
            && (forall i :: 0 <= i < |m.overlays| ==>
                  && ValidIdentifier(m.overlays[i].class_) && ValidIdentifier(m.overlays[i].id)
                  && ValidPackPath(m.overlays[i].source) && Distribution.ValidDigest(m.overlays[i].digest))
            && Distribution.ValidDigest(m.pack.digest) && Distribution.ValidDigest(m.profile.digest)
            && Distribution.ValidDigest(m.output.digest)
            && Distribution.ValidDigest(m.engineInputsDigest) && Distribution.ValidDigest(lock.manifestDigest)
            && inputs.Some? && env.digest(inputs.value) == m.engineInputsDigest
            && manifest.Some? && env.digest(manifest.value) == lock.manifestDigest
  {
    hide ValidIdentifier, ValidPackPath, Distribution.ValidDigest;
    var m := lock.manifest;
    assert forall o :: o in m.overlays <==> exists i :: 0 <= i < |m.overlays| && m.overlays[i] == o;
    assert IdentitiesOk(m) <==>
           ValidIdentifier(m.pack.id) && ValidIdentifier(m.profile.id)
           && forall i :: 0 <= i < |m.overlays| ==> OverlayIdentitiesOk(m.overlays[i]);
  }

  /** No drift is reported exactly when the whole lock is the lock that would be built now. */
  lemma NoDriftMeansSameLock(lock: Lockfile, pack: OverlayPack, c: Composition, env: Env)
    requires Validate(lock, env).None? && Build(pack, c, env).Success?
    ensures Drifts(lock.manifest, Build(pack, c, env).value.manifest) == [] <==> lock == Build(pack, c, env).value
  {
    hide Validate, Build, Drifts;
    var current := Build(pack, c, env).value;
    BuiltIsValid(pack, c, env);
    DriftsDecide(lock.manifest, current.manifest);
    if Drifts(lock.manifest, current.manifest) == [] {
      ValidLockIsDetermined(lock, current, env);
    }
  }

  /** Every kind of drift is reported exactly when its part changed, overlay contents by index. */
  lemma DriftsExplain(lock: LockedManifest, current: LockedManifest)
    ensures var drifts, a, b := Drifts(lock, current), lock.overlays, current.overlays;
            var sameSet := |a| == |b| && forall i :: 0 <= i < |a| ==>
                             a[i].class_ == b[i].class_ && a[i].id == b[i].id && a[i].source == b[i].source;
            && (PackMetadata in drifts <==> lock.pack != current.pack)
            && (ProfileSelection in drifts <==> lock.profile != current.profile)
            && (OverlaySet in drifts <==> !sameSet)
            && (RenderedOutput in drifts <==> lock.output != current.output)
            && (forall i: nat :: OverlayContent(i) in drifts <==>
                  sameSet && i < |a| && (a[i].byteLength != b[i].byteLength || a[i].digest != b[i].digest))
  {
    hide ContentDrifts;
    if SameOverlaySet(lock.overlays, current.overlays) {
      ContentDriftsFound(lock.overlays, current.overlays, |lock.overlays|);
    }
  }

  /** Where a drift stands in a report: pack, profile, overlays by index, output. */
  function Rank(d: Drift, overlays: nat): nat {
    match d
    case PackMetadata => 0
    case ProfileSelection => 1
    case OverlaySet => 2
    case OverlayContent(index) => 3 + index
    case RenderedOutput => 3 + overlays
  }

  ghost predicate Ranked(drifts: seq<Drift>, overlays: nat) {
    forall i, j :: 0 <= i < j < |drifts| ==> Rank(drifts[i], overlays) < Rank(drifts[j], overlays)
  }

  lemma {:induction false} ContentDriftsRanked(expected: seq<LockedOverlay>, actual: seq<LockedOverlay>, n: nat)
    requires n <= |expected| && n <= |actual|
    ensures Ranked(ContentDrifts(expected, actual, n), |expected|)
    ensures forall d :: d in ContentDrifts(expected, actual, n) ==> 3 <= Rank(d, |expected|) < 3 + n
  {
    hide ContentDiffers;
    if n > 0 {
      ContentDriftsRanked(expected, actual, n - 1);
      var before := ContentDrifts(expected, actual, n - 1);
      var last := if ContentDiffers(expected[n - 1], actual[n - 1]) then [OverlayContent(n - 1)] else [];
      assert ContentDrifts(expected, actual, n) == before + last;
      hide ContentDrifts;
      RankedAppends(before, last, |expected|, n + 2);
    }
  }

  lemma RankedAppends(a: seq<Drift>, b: seq<Drift>, overlays: nat, bound: nat)
    requires Ranked(a, overlays) && Ranked(b, overlays)
    requires forall d :: d in a ==> Rank(d, overlays) < bound
    requires forall d :: d in b ==> bound <= Rank(d, overlays)
    ensures Ranked(a + b, overlays)
  {
    var c := a + b;
    forall i, j | 0 <= i < j < |c|
      ensures Rank(c[i], overlays) < Rank(c[j], overlays)
    {
      assert i < |a| ==> c[i] == a[i] && a[i] in a;
      assert i >= |a| ==> c[i] == b[i - |a|];
      assert j < |a| ==> c[j] == a[j];
      assert j >= |a| ==> c[j] == b[j - |a|] && b[j - |a|] in b;
    }
  }

  /** No drift is reported twice, and they come as pack, profile, overlays by index, output. */
  lemma DriftsAreOrdered(lock: LockedManifest, current: LockedManifest)
    ensures Ranked(Drifts(lock, current), |lock.overlays|)
  {
    var a, b, n := lock.overlays, current.overlays, |lock.overlays|;
    if SameOverlaySet(a, b) {
      ContentDriftsRanked(a, b, n);
    }
    var overlays := OverlayDrifts(a, b);
    assert Ranked(overlays, n) && forall d :: d in overlays ==> 2 <= Rank(d, n) < 3 + n;
    hide OverlayDrifts, SameOverlaySet;
    var pack: seq<Drift> := if lock.pack != current.pack then [PackMetadata] else [];
    var profile: seq<Drift> := if lock.profile != current.profile then [ProfileSelection] else [];
    var output: seq<Drift> := if lock.output != current.output then [RenderedOutput] else [];
    RankedAppends(pack, profile, n, 1);
    RankedAppends(pack + profile, overlays, n, 2);
    RankedAppends(pack + profile + overlays, output, n, 3 + n);
  }

  // ----- locking a pack's own composition

  function DigestOrNothing(env: Env, m: Material): Text {
    match DigestOf(env, m) case Success(d) => d case Failure(_) => []
  }

  /** The lock of a composition whose profile is known, if everything encodes. */
  function LockOf(pack: OverlayPack, profile: Profile, c: Composition, env: Env): Lockfile {
    var packDigest := DigestOrNothing(env, PackMaterial(pack));
    var profileDigest := DigestOrNothing(env, ProfileMaterial(profile));
    var overlays := LockSegments(c.segments, env);
    var manifest := LockedManifest(DigestOrNothing(env, InputsMaterial(packDigest, profileDigest, overlays)),
                                   LockedPack(pack.id, pack.schemaFamily, packDigest),
                                   LockedProfile(profile.id, profileDigest), overlays,
                                   LockedOutput(|c.context|, env.digest(c.context)));
    Lockfile(LOCKFILE_FORMAT, CANONICALIZATION_FORMAT, env.algorithm, manifest,
             DigestOrNothing(env, ManifestMaterial(manifest)))
  }

  /** The encoder takes the pack, its profile and all parts of the lock, and the lock stays within its size. */
  predicate Encodes(pack: OverlayPack, profile: Profile, lock: Lockfile, env: Env) {
    var m := lock.manifest;
    && env.encode(PackMaterial(pack)).Some? && env.encode(ProfileMaterial(profile)).Some?
    && env.encode(InputsMaterial(m.pack.digest, m.profile.digest, m.overlays)).Some?
    && env.encode(ManifestMaterial(m)).Some? && env.encode(LockMaterial(lock)).Some?
    && |env.encode(LockMaterial(lock)).value| <= MAX_LOCKFILE_BYTES
  }

  /** Only the digester, the encoder and the sizes can stand in the way. */
  predicate IsOutside(e: IntegrityError) {
    e.UnsupportedDigestAlgorithm? || e.TooManyLockedOverlays? || e.Encode? || e.InvalidDigest? || e.LockfileTooLarge?
  }

  /** What `Validate` still has to check of a lock made this way. */
  lemma MadeLockValidates(pack: OverlayPack, profile: Profile, c: Composition, env: Env)
    requires env.algorithm == Distribution.SHA256_ALGORITHM && |c.segments| <= MAX_LOCKED_OVERLAYS
    requires var m := LockOf(pack, profile, c, env).manifest;
             && env.encode(InputsMaterial(m.pack.digest, m.profile.digest, m.overlays)).Some?
             && env.encode(ManifestMaterial(m)).Some?
    ensures Validate(LockOf(pack, profile, c, env), env)
            == if DigestsOk(LockOf(pack, profile, c, env)) then None else Some(InvalidDigest)
  {
    hide DigestsOk;
    assert IdentitiesOk(LockOf(pack, profile, c, env).manifest);
  }

  /**
   A composition of an accepted pack is locked exactly if the digester is
   SHA-256 with digests of the right form, the overlays are few enough and
   everything encodes within its size. The lock is then the one just
   described; identities, profiles and derived digests are never at fault.
   */
  lemma OwnCompositionLocks(pack: OverlayPack, profile: Profile, source: Source, limits: Limits, env: Env)
    requires Accepted(pack) && profile in pack.profiles && ComposeProfile(pack, profile.id, source, limits).Success?
    ensures var c := ComposeProfile(pack, profile.id, source, limits).value;
            var lock, r := LockOf(pack, profile, c, env), Build(pack, c, env);
            && (r.Success? <==> env.algorithm == Distribution.SHA256_ALGORITHM && |c.segments| <= MAX_LOCKED_OVERLAYS
                                && Encodes(pack, profile, lock, env) && DigestsOk(lock))
            && (r.Success? ==> r.value == lock)
            && (r.Failure? ==> IsOutside(r.error))
  {
    hide Accepted, ComposeProfile, ResolveSelected, Composable, FindProfile, Loaded, EntriesOf, Join, TotalBytes,
         Validate, LockSegments, DigestsOk;
    ComposeDelivers(pack, profile, source, limits);
    FoundInAccepted(pack, profile);
    var c := ComposeProfile(pack, profile.id, source, limits).value;
    var m := LockOf(pack, profile, c, env).manifest;
    if env.algorithm == Distribution.SHA256_ALGORITHM && |c.segments| <= MAX_LOCKED_OVERLAYS
       && env.encode(InputsMaterial(m.pack.digest, m.profile.digest, m.overlays)).Some?
       && env.encode(ManifestMaterial(m)).Some?
    {
      MadeLockValidates(pack, profile, c, env);
    }
  }

  /** A lock that could be built verifies against what it was built from. */
  lemma FreshLockVerifies(pack: OverlayPack, c: Composition, env: Env)
    requires Build(pack, c, env).Success?
    ensures Validate(Build(pack, c, env).value, env).None?
    ensures Drifts(Build(pack, c, env).value.manifest, Build(pack, c, env).value.manifest) == []
  {
    hide Validate, Build;
    BuiltIsValid(pack, c, env);
    NoDriftMeansSameLock(Build(pack, c, env).value, pack, c, env);
  }
}
