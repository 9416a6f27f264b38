/** Resolving one profile of a pack and assembling its sources. */
module Compose {
  import opened Bytes
  import opened Sorting
  import opened Pack

  const USIZE_MAX: nat := U64_MAX

  const SEPARATOR: Text := [10, 10]

  type Usize = n: nat | n <= USIZE_MAX

  datatype Limits = Limits(maximumOverlays: Usize, maximumOverlayBytes: Usize, maximumOutputBytes: Usize)

  datatype SourceFailure = SourceFailure(path: PackPath, kind: nat)

  /** The source port: one stable read of a path under a byte limit. */
  type Source = (PackPath, nat) -> Result<Text, SourceFailure>

  datatype Segment = Segment(class_: Identifier, overlay: Identifier, source: PackPath, bytes: Text)

  datatype Entry = Entry(class_: Identifier, overlay: Identifier, source: PackPath, byteLength: nat)

  datatype Manifest = Manifest(pack: Identifier, schemaFamily: Text, profile: Identifier, entries: seq<Entry>,
                               sourceBytes: nat, outputBytes: nat)

  datatype Composition = Composition(manifest: Manifest, segments: seq<Segment>, context: Text)

  datatype CompositionError =
    | UnknownProfile(id: Text)
    | MissingOverlay(id: Text)
    | TooManyOverlays(count: nat, maximum: nat)
    | IncompatibleOverlays(overlay: Text, other: Text)
    | OverlayTooLarge(overlay: Text, size: nat, maximum: nat)
    | OutputTooLarge(size: nat, maximum: nat)
    | SourceRejected(failure: SourceFailure)

  // ----- finding an overlay by halving

  /** `binary_search_by` on identifiers, within positions `lo` to `hi`. */
  function Search(overlays: seq<Overlay>, id: Text, lo: nat, hi: nat): (r: Option<Overlay>)
    requires lo <= hi <= |overlays|
    decreases hi - lo
  {
    if lo == hi then None
    else
      var mid := (lo + hi) / 2;
      if overlays[mid].id == id then Some(overlays[mid])
      else if Before(overlays[mid].id, id) then Search(overlays, id, mid + 1, hi)
      else Search(overlays, id, lo, mid)
  }

  lemma {:induction false} SearchFinds(overlays: seq<Overlay>, id: Text, lo: nat, hi: nat)
    requires lo <= hi <= |overlays| && StrictlyOrdered(overlays, OverlayId)
    ensures var r := Search(overlays, id, lo, hi);
            && (r.Some? ==> r.value in overlays && r.value.id == id)
            && (r.None? ==> forall i :: lo <= i < hi ==> overlays[i].id != id)
    decreases hi - lo
  {
    hide StrictlyOrdered, Before;
    if lo < hi {
      var mid := (lo + hi) / 2;
      if overlays[mid].id == id {
      } else if Before(overlays[mid].id, id) {
        SearchFinds(overlays, id, mid + 1, hi);
        LowerHalfIsBefore(overlays, id, mid);
      } else {
        SearchFinds(overlays, id, lo, mid);
        UpperHalfIsAfter(overlays, id, mid);
      }
    }
  }

  lemma LowerHalfIsBefore(overlays: seq<Overlay>, id: Text, mid: nat)
    requires mid < |overlays| && StrictlyOrdered(overlays, OverlayId) && Before(overlays[mid].id, id)
    ensures forall i :: 0 <= i <= mid ==> overlays[i].id != id
  {
    forall i | 0 <= i <= mid
      ensures overlays[i].id != id
    {
      if i < mid {
        assert Before(OverlayId(overlays[i]), OverlayId(overlays[mid]));
        BeforeAsymmetric(overlays[i].id, overlays[mid].id);
      } else {
        BeforeIrreflexive(id);
      }
    }
  }

  lemma UpperHalfIsAfter(overlays: seq<Overlay>, id: Text, mid: nat)
    requires mid < |overlays| && StrictlyOrdered(overlays, OverlayId)
    requires overlays[mid].id != id && !Before(overlays[mid].id, id)
    ensures forall i :: mid <= i < |overlays| ==> overlays[i].id != id
  {
    BeforeTotal(overlays[mid].id, id);
    forall i | mid <= i < |overlays|
      ensures overlays[i].id != id
    {
      if i > mid {
        assert Before(OverlayId(overlays[mid]), OverlayId(overlays[i]));
        BeforeTransitive(id, overlays[mid].id, overlays[i].id);
        BeforeIrreflexive(id);
      }
    }
  }

  /** On a pack's sorted overlays halving finds exactly what looking at each one finds. */
  lemma SearchIsFind(overlays: seq<Overlay>, id: Text)
    requires StrictlyOrdered(overlays, OverlayId)
    ensures Search(overlays, id, 0, |overlays|) == Find(overlays, id)
  {
    SearchFinds(overlays, id, 0, |overlays|);
    StrictIsDistinct(overlays, OverlayId);
    FindDecides(overlays, id);
    var r := Find(overlays, id);
    if r.Some? {
      assert r.value in overlays && r.value.id == id;
      var i :| 0 <= i < |overlays| && overlays[i] == r.value;
    }
  }

  // ----- the steps of `compose`

  function FindProfile(profiles: seq<Profile>, id: Text): Option<Profile> {
    if profiles == [] then None
    else if profiles[0].id == id then Some(profiles[0])
    else FindProfile(profiles[1..], id)
  }

  function ResolveIds(overlays: seq<Overlay>, ids: seq<Identifier>): Result<seq<Overlay>, CompositionError> {
    if ids == [] then Success([])
    else
      var first := Search(overlays, ids[0], 0, |overlays|);
      if first.None? then Failure(MissingOverlay(ids[0]))
      else
        var rest :- ResolveIds(overlays, ids[1..]);
        Success([first.value] + rest)
  }

  /** The profile's selections, class after class. */
  function SelectedIds(classes: seq<OverlayClass>, profile: Profile): seq<Identifier> {
    if classes == [] then [] else profile.Selected(classes[0].id) + SelectedIds(classes[1..], profile)
  }

  function ResolveSelected(pack: OverlayPack, profile: Profile): Result<seq<Overlay>, CompositionError> {
    ResolveIds(pack.overlays, SelectedIds(pack.classes, profile))
  }

  function FirstConflictOf(overlay: Overlay, others: seq<Overlay>): Option<CompositionError> {
    if others == [] then None
    else if others[0].id in overlay.incompatibleWith then Some(IncompatibleOverlays(overlay.id, others[0].id))
    else FirstConflictOf(overlay, others[1..])
  }

  function FirstConflict(overlays: seq<Overlay>, selected: seq<Overlay>): Option<CompositionError> {
    if overlays == [] then None
    else
      var first := FirstConflictOf(overlays[0], selected);
      if first.Some? then first else FirstConflict(overlays[1..], selected)
  }

  function LoadSegment(overlay: Overlay, source: Source, maximum: nat): Result<Segment, CompositionError> {
    match source(overlay.source, maximum)
    case Failure(failure) => Failure(SourceRejected(failure))
    case Success(bytes) =>
      if |bytes| > maximum then Failure(OverlayTooLarge(overlay.id, |bytes|, maximum))
      else Success(Segment(overlay.class_, overlay.id, overlay.source, bytes))
  }

  /** `checked_output_size`: overflow counts as too large. */
  function CheckedSize(current: nat, additional: nat, maximum: nat): (r: Result<nat, CompositionError>)
    requires maximum <= USIZE_MAX
    ensures r.Success? <==> current + additional <= maximum
    ensures r.Success? ==> r.value == current + additional
    ensures r.Failure? ==> r.error.OutputTooLarge? && r.error.maximum == maximum
    ensures r.Failure? ==> r.error.size == if current + additional < USIZE_MAX then current + additional else USIZE_MAX
  {
    if current + additional > USIZE_MAX then Failure(OutputTooLarge(USIZE_MAX, maximum))
    else if current + additional > maximum then Failure(OutputTooLarge(current + additional, maximum))
    else Success(current + additional)
  }

  datatype Draft = Draft(entries: seq<Entry>, segments: seq<Segment>, context: Text, sourceBytes: nat)

  function AddSegment(d: Draft, overlay: Overlay, source: Source, limits: Limits): Result<Draft, CompositionError> {
    var segment :- LoadSegment(overlay, source, limits.maximumOverlayBytes);
    var sourceBytes :- CheckedSize(d.sourceBytes, |segment.bytes|, limits.maximumOutputBytes);
    var separator := if d.entries != [] then SEPARATOR else [];
    var framed :- CheckedSize(|separator|, |segment.bytes|, limits.maximumOutputBytes);
    var required :- CheckedSize(|d.context|, framed, limits.maximumOutputBytes);
    Success(Draft(d.entries + [Entry(segment.class_, segment.overlay, segment.source, |segment.bytes|)],
                  d.segments + [segment], d.context + separator + segment.bytes, sourceBytes))
  }

  function AddSegments(d: Draft, selected: seq<Overlay>, source: Source, limits: Limits)
    : Result<Draft, CompositionError>
    decreases |selected|
  {
    if selected == [] then Success(d)
    else
      var next :- AddSegment(d, selected[0], source, limits);
      AddSegments(next, selected[1..], source, limits)
  }

  const EMPTY_DRAFT := Draft([], [], [], 0)

  function Finish(pack: OverlayPack, profile: Profile, d: Draft): Composition {
    Composition(Manifest(pack.id, pack.schemaFamily, profile.id, d.entries, d.sourceBytes, |d.context|),
                d.segments, d.context)
  }

  /** `compose`. */
  function ComposeProfile(pack: OverlayPack, profileId: Identifier, source: Source, limits: Limits)
    : Result<Composition, CompositionError>
  {
    var profile := FindProfile(pack.profiles, profileId);
    if profile.None? then Failure(UnknownProfile(profileId))
    else
      var selected :- ResolveSelected(pack, profile.value);
      if |selected| > limits.maximumOverlays then Failure(TooManyOverlays(|selected|, limits.maximumOverlays))
      else
        var conflict := FirstConflict(selected, selected);
        if conflict.Some? then Failure(conflict.value)
        else
          var d :- AddSegments(EMPTY_DRAFT, selected, source, limits);
          Success(Finish(pack, profile.value, d))
  }

  // ----- the loops

  /** `resolve_selected`: classes outside, the profile's order inside. */
  method Resolve(pack: OverlayPack, profile: Profile) returns (r: Result<seq<Overlay>, CompositionError>)
    ensures r == ResolveSelected(pack, profile)
  {
    hide Search, ResolveFrom, ResolveIds, SelectedIds;
    var selected: seq<Overlay> := [];
    var i := 0;
    assert pack.classes[0..] == pack.classes;
    ResolvedStart(pack.overlays, SelectedIds(pack.classes, profile));
    while i < |pack.classes|
      invariant 0 <= i <= |pack.classes|
      invariant ResolveSelected(pack, profile)
                == ResolveFrom(pack.overlays, selected, SelectedIds(pack.classes[i..], profile))
    {
      var c := pack.classes[i];
      FirstClass(pack.classes, i, profile);
      var ids: seq<Identifier> := if c.id in profile.selections then profile.selections[c.id] else [];
      ghost var later := SelectedIds(pack.classes[i + 1..], profile);
      var k := 0;
      assert ids[0..] == ids;
      while k < |ids|
        invariant 0 <= k <= |ids|
        invariant ResolveSelected(pack, profile) == ResolveFrom(pack.overlays, selected, ids[k..] + later)
      {
        assert (ids[k..] + later)[0] == ids[k] && (ids[k..] + later)[1..] == ids[k + 1..] + later;
        ResolveOneMore(pack.overlays, selected, ids[k..] + later);
        var overlay := Search(pack.overlays, ids[k], 0, |pack.overlays|);
        if overlay.None? {
          return Failure(MissingOverlay(ids[k]));
        }
        selected := selected + [overlay.value];
        k := k + 1;
      }
      assert ids[k..] + later == later;
      i := i + 1;
    }
    NothingLeft(pack.classes, profile);
    ResolvedEnd(pack.overlays, selected);
    return Success(selected);
  }

  lemma NothingLeft(classes: seq<OverlayClass>, profile: Profile)
    ensures SelectedIds(classes[|classes|..], profile) == []
  {
    assert classes[|classes|..] == [];
  }

  /** What resolving ends with once `done` is resolved and `ids` are still to come. */
  ghost function ResolveFrom(overlays: seq<Overlay>, done: seq<Overlay>, ids: seq<Identifier>)
    : Result<seq<Overlay>, CompositionError>
  {
    match ResolveIds(overlays, ids)
    case Success(more) => Success(done + more)
    case Failure(error) => Failure(error)
  }

  lemma ResolvedStart(overlays: seq<Overlay>, ids: seq<Identifier>)
    ensures ResolveFrom(overlays, [], ids) == ResolveIds(overlays, ids)
  {
    if ResolveIds(overlays, ids).Success? {
      assert [] + ResolveIds(overlays, ids).value == ResolveIds(overlays, ids).value;
    }
  }

  lemma ResolvedEnd(overlays: seq<Overlay>, done: seq<Overlay>)
    ensures ResolveFrom(overlays, done, []) == Success(done)
  {
    assert done + [] == done;
  }

  lemma ResolveOneMore(overlays: seq<Overlay>, done: seq<Overlay>, ids: seq<Identifier>)
    requires ids != []
    ensures var found := Search(overlays, ids[0], 0, |overlays|);
            ResolveFrom(overlays, done, ids) ==
            if found.Some? then ResolveFrom(overlays, done + [found.value], ids[1..])
            else Failure(MissingOverlay(ids[0]))
  {
    hide Search;
    var found, more := Search(overlays, ids[0], 0, |overlays|), ResolveIds(overlays, ids[1..]);
    if found.Some? && more.Success? {
      assert done + ([found.value] + more.value) == done + [found.value] + more.value;
    }
  }

  /** `reject_incompatibilities`. */
  method RejectIncompatibilities(selected: seq<Overlay>) returns (conflict: Option<CompositionError>)
    ensures conflict == FirstConflict(selected, selected)
  {
    var i := 0;
    assert selected[0..] == selected;
    while i < |selected|
      invariant 0 <= i <= |selected| && FirstConflict(selected, selected) == FirstConflict(selected[i..], selected)
    {
      assert selected[i..][0] == selected[i] && selected[i..][1..] == selected[i + 1..];
      var k := 0;
      while k < |selected|
        invariant 0 <= k <= |selected|
        invariant FirstConflictOf(selected[i], selected) == FirstConflictOf(selected[i], selected[k..])
      {
        assert selected[k..][0] == selected[k] && selected[k..][1..] == selected[k + 1..];
        if selected[k].id in selected[i].incompatibleWith {
          return Some(IncompatibleOverlays(selected[i].id, selected[k].id));
        }
        k := k + 1;
      }
      i := i + 1;
    }
    return None;
  }

  /** `assemble`. */
  method Assemble(pack: OverlayPack, profile: Profile, selected: seq<Overlay>, source: Source, limits: Limits)
    returns (r: Result<Composition, CompositionError>)
    ensures r == (match AddSegments(EMPTY_DRAFT, selected, source, limits)
                  case Success(d) => Success(Finish(pack, profile, d))
                  case Failure(error) => Failure(error))
  {
    hide LoadSegment;
    var entries: seq<Entry>, segments: seq<Segment>, context: Text, total := [], [], [], 0;
    var i := 0;
    assert selected[0..] == selected;
    while i < |selected|
      invariant 0 <= i <= |selected|
      invariant AddSegments(EMPTY_DRAFT, selected, source, limits)
                == AddSegments(Draft(entries, segments, context, total), selected[i..], source, limits)
    {
      assert selected[i..][0] == selected[i] && selected[i..][1..] == selected[i + 1..];
      var segment := LoadSegment(selected[i], source, limits.maximumOverlayBytes);
      if segment.Failure? {
        return Failure(segment.error);
      }
      var s := segment.value;
      var sourceBytes := CheckedSize(total, |s.bytes|, limits.maximumOutputBytes);
      if sourceBytes.Failure? {
        return Failure(sourceBytes.error);
      }
      var separator: Text := if entries != [] then SEPARATOR else [];
      var framed := CheckedSize(|separator|, |s.bytes|, limits.maximumOutputBytes);
      if framed.Failure? {
        return Failure(framed.error);
      }
      var required := CheckedSize(|context|, framed.value, limits.maximumOutputBytes);
      if required.Failure? {
        return Failure(required.error);
      }
      total := sourceBytes.value;
      context := context + separator + s.bytes;
      entries := entries + [Entry(s.class_, s.overlay, s.source, |s.bytes|)];
      segments := segments + [s];
      i := i + 1;
    }
    return Success(Finish(pack, profile, Draft(entries, segments, context, total)));
  }

  /** `compose`, statement by statement. */
  method Compose(pack: OverlayPack, profileId: Identifier, source: Source, limits: Limits)
    returns (r: Result<Composition, CompositionError>)
    ensures r == ComposeProfile(pack, profileId, source, limits)
  {
    hide ResolveSelected, FirstConflict, AddSegments;
    var profile := FindProfile(pack.profiles, profileId);
    if profile.None? {
      return Failure(UnknownProfile(profileId));
    }
    var selected := Resolve(pack, profile.value);
    if selected.Failure? {
      return Failure(selected.error);
    }
    if |selected.value| > limits.maximumOverlays {
      return Failure(TooManyOverlays(|selected.value|, limits.maximumOverlays));
    }
    var conflict := RejectIncompatibilities(selected.value);
    if conflict.Some? {
      return Failure(conflict.value);
    }
    r := Assemble(pack, profile.value, selected.value, source, limits);
  }

  // ----- what is selected

  lemma {:induction false} ProfileFound(profiles: seq<Profile>, profile: Profile)
    requires DistinctKeys(profiles, ProfileId) && profile in profiles
    ensures FindProfile(profiles, profile.id) == Some(profile)
  {
    if profiles[0] != profile {
      assert profile in profiles[1..];
      var i :| 0 < i < |profiles| && profiles[i] == profile;
      assert ProfileId(profiles[0]) != ProfileId(profiles[i]);
      assert DistinctKeys(profiles[1..], ProfileId);
      ProfileFound(profiles[1..], profile);
    }
  }

  lemma {:induction false} ProfileNotFound(profiles: seq<Profile>, id: Text)
    requires forall p :: p in profiles ==> p.id != id
    ensures FindProfile(profiles, id).None?
  {
    if profiles != [] {
      ProfileNotFound(profiles[1..], id);
    }
  }

  /** Every identifier is one of the pack's overlays. */
  ghost predicate AllDeclared(overlays: seq<Overlay>, ids: seq<Identifier>) {
    forall i :: 0 <= i < |ids| ==> HasOverlay(overlays, ids[i])
  }

  ghost predicate HasOverlay(overlays: seq<Overlay>, id: Text) {
    exists o :: o in overlays && o.id == id
  }

  /** The overlays with these identifiers, one for one. */
  ghost predicate Answers(overlays: seq<Overlay>, ids: seq<Identifier>, selected: seq<Overlay>) {
    |selected| == |ids| && forall i :: 0 <= i < |ids| ==> selected[i] in overlays && selected[i].id == ids[i]
  }

  lemma {:induction false} ResolveAnswers(overlays: seq<Overlay>, ids: seq<Identifier>)
    requires StrictlyOrdered(overlays, OverlayId) && AllDeclared(overlays, ids)
    ensures ResolveIds(overlays, ids).Success? && Answers(overlays, ids, ResolveIds(overlays, ids).value)
  {
    hide StrictlyOrdered, Search, HasOverlay, OverlayId;
    if ids != [] {
      SearchAnswers(overlays, ids[0]);
      TailDeclared(overlays, ids);
      ResolveAnswers(overlays, ids[1..]);
    }
  }

  lemma TailDeclared(overlays: seq<Overlay>, ids: seq<Identifier>)
    requires AllDeclared(overlays, ids) && ids != []
    ensures AllDeclared(overlays, ids[1..])
  {
    hide HasOverlay;
  }

  lemma SearchAnswers(overlays: seq<Overlay>, id: Text)
    requires StrictlyOrdered(overlays, OverlayId) && HasOverlay(overlays, id)
    ensures var r := Search(overlays, id, 0, |overlays|); r.Some? && r.value in overlays && r.value.id == id
  {
    SearchFinds(overlays, id, 0, |overlays|);
    var o :| o in overlays && o.id == id;
    var i :| 0 <= i < |overlays| && overlays[i] == o;
  }

  lemma {:induction false} SelectedComesFromClass(classes: seq<OverlayClass>, profile: Profile, i: nat)
    returns (c: OverlayClass)
    requires i < |SelectedIds(classes, profile)|
    ensures c in classes && SelectedIds(classes, profile)[i] in profile.Selected(c.id)
  {
    var head := profile.Selected(classes[0].id);
    if i < |head| {
      c := classes[0];
    } else {
      c := SelectedComesFromClass(classes[1..], profile, i - |head|);
    }
  }

  lemma SelectedIsDeclared(overlays: seq<Overlay>, classes: seq<OverlayClass>, profile: Profile,
                           c: OverlayClass, id: Identifier)
    requires ProfileOk(profile, classes, overlays) && c in classes && id in profile.Selected(c.id)
    ensures exists o :: o in overlays && o.id == id && o.class_ == c.id
  {
    var selected := profile.Selected(c.id);
    assert SelectionOk(selected, overlays, c.id);
    var i :| 0 <= i < |selected| && selected[i] == id;
    assert Declares(overlays, selected[i], c.id);
  }

  lemma SelectedIdsDeclared(overlays: seq<Overlay>, classes: seq<OverlayClass>, profile: Profile)
    requires ProfileOk(profile, classes, overlays)
    ensures AllDeclared(overlays, SelectedIds(classes, profile))
  {
    var ids := SelectedIds(classes, profile);
    forall i | 0 <= i < |ids|
      ensures HasOverlay(overlays, ids[i])
    {
      var c := SelectedComesFromClass(classes, profile, i);
      SelectedIsDeclared(overlays, classes, profile, c, ids[i]);
    }
  }

  lemma UniqueOverlay(overlays: seq<Overlay>, a: Overlay, b: Overlay)
    requires DistinctKeys(overlays, OverlayId) && a in overlays && b in overlays && a.id == b.id
    ensures a == b
  {
    var i :| 0 <= i < |overlays| && overlays[i] == a;
    var j :| 0 <= j < |overlays| && overlays[j] == b;
    assert OverlayId(overlays[i]) == OverlayId(overlays[j]);
  }

  /** Positions of one class's selections in the whole selection: its own block, in the profile's order. */
  function ClassStart(classes: seq<OverlayClass>, profile: Profile, n: nat): nat
    requires n <= |classes|
  {
    |SelectedIds(classes[..n], profile)|
  }

  lemma {:induction false} SelectedSplits(a: seq<OverlayClass>, b: seq<OverlayClass>, profile: Profile)
    ensures SelectedIds(a + b, profile) == SelectedIds(a, profile) + SelectedIds(b, profile)
  {
    if a == [] {
      assert a + b == b;
    } else {
      assert (a + b)[0] == a[0] && (a + b)[1..] == a[1..] + b;
      SelectedSplits(a[1..], b, profile);
    }
  }

  lemma OneClass(c: OverlayClass, profile: Profile)
    ensures SelectedIds([c], profile) == profile.Selected(c.id)
  {
    assert [c][1..] == [];
    assert profile.Selected(c.id) + [] == profile.Selected(c.id);
  }

  /** The n-th class's selections are one block of the whole, in the profile's order. */
  lemma ClassBlock(classes: seq<OverlayClass>, profile: Profile, n: nat)
    requires n < |classes|
    ensures ClassStart(classes, profile, n) + |profile.Selected(classes[n].id)| == ClassStart(classes, profile, n + 1)
    ensures ClassStart(classes, profile, n + 1) <= |SelectedIds(classes, profile)|
    ensures SelectedIds(classes, profile)[ClassStart(classes, profile, n)..ClassStart(classes, profile, n + 1)]
            == profile.Selected(classes[n].id)
    ensures profile.Selected(classes[n].id)
            == if classes[n].id in profile.selections then profile.selections[classes[n].id] else []
  {
    hide SelectedIds;
    var block := profile.Selected(classes[n].id);
    assert classes == classes[..n + 1] + classes[n + 1..];
    SelectedSplits(classes[..n + 1], classes[n + 1..], profile);
    assert classes[..n + 1] == classes[..n] + [classes[n]];
    SelectedSplits(classes[..n], [classes[n]], profile);
    OneClass(classes[n], profile);
    var a, b := SelectedIds(classes[..n], profile), SelectedIds(classes[n + 1..], profile);
    assert SelectedIds(classes, profile) == a + block + b;
    assert (a + block + b)[|a|..|a| + |block|] == block;
  }

  /** Every selected overlay belongs to the class it was selected under. */
  lemma ChosenClass(overlays: seq<Overlay>, classes: seq<OverlayClass>, profile: Profile, selected: seq<Overlay>,
                    i: nat)
    returns (c: OverlayClass)
    requires ProfileOk(profile, classes, overlays) && DistinctKeys(overlays, OverlayId)
    requires Answers(overlays, SelectedIds(classes, profile), selected) && i < |selected|
    ensures c in classes && selected[i].class_ == c.id && selected[i].id in profile.Selected(c.id)
  {
    c := SelectedComesFromClass(classes, profile, i);
    SelectedIsDeclared(overlays, classes, profile, c, SelectedIds(classes, profile)[i]);
    var o :| o in overlays && o.id == SelectedIds(classes, profile)[i] && o.class_ == c.id;
    UniqueOverlay(overlays, o, selected[i]);
  }

  /** The class of the first overlay is not ordered after that of the second. */
  ghost predicate NotAfter(classes: seq<OverlayClass>, a: Overlay, b: Overlay) {
    forall c, d :: c in classes && d in classes && a.class_ == c.id && b.class_ == d.id ==> c.order <= d.order
  }

  /** Class orders never decrease along the selection, and no overlay is selected twice. */
  ghost predicate WellOrdered(classes: seq<OverlayClass>, selected: seq<Overlay>) {
    forall i, j :: 0 <= i < j < |selected| ==>
      selected[i].id != selected[j].id && NotAfter(classes, selected[i], selected[j])
  }

  ghost predicate ClassFrom(all: seq<OverlayClass>, n: nat, o: Overlay) {
    exists k :: n <= k < |all| && all[k].id == o.class_
  }

  /** Where the selection stands once classes before the n-th are done. */
  ghost predicate OrderedFrom(overlays: seq<Overlay>, all: seq<OverlayClass>, n: nat, selected: seq<Overlay>) {
    && WellOrdered(all, selected)
    && forall i :: 0 <= i < |selected| ==> selected[i] in overlays && ClassFrom(all, n, selected[i])
  }

  lemma OrderBefore(a: OverlayClass, b: OverlayClass)
    requires Before(ClassOrder(a), ClassOrder(b))
    ensures a.order < b.order
  {
    assert ClassOrder(a)[0] == a.order && ClassOrder(b)[0] == b.order;
    assert ClassOrder(a)[1..] == [] && ClassOrder(b)[1..] == [];
  }

  lemma SameClass(all: seq<OverlayClass>, c: OverlayClass, k: nat)
    requires DistinctKeys(all, ClassId) && k < |all| && c in all && c.id == all[k].id
    ensures c == all[k]
  {
    var i :| 0 <= i < |all| && all[i] == c;
    assert ClassId(all[i]) == ClassId(all[k]);
  }

  lemma HeadNotAfter(all: seq<OverlayClass>, n: nat, a: Overlay, b: Overlay)
    requires StrictlyOrdered(all, ClassOrder) && DistinctKeys(all, ClassId) && n < |all|
    requires a.class_ == all[n].id && ClassFrom(all, n, b)
    ensures NotAfter(all, a, b)
  {
    var k :| n <= k < |all| && all[k].id == b.class_;
    if n < k {
      assert Before(ClassOrder(all[n]), ClassOrder(all[k]));
      OrderBefore(all[n], all[k]);
    }
    hide DistinctKeys, StrictlyOrdered;
    forall c, d | c in all && d in all && a.class_ == c.id && b.class_ == d.id
      ensures c.order <= d.order
    {
      SameClass(all, c, n);
      SameClass(all, d, k);
    }
  }

  lemma LaterClassDiffers(all: seq<OverlayClass>, n: nat, o: Overlay)
    requires DistinctKeys(all, ClassId) && n < |all| && ClassFrom(all, n + 1, o)
    ensures o.class_ != all[n].id && ClassFrom(all, n, o)
  {
    var k :| n + 1 <= k < |all| && all[k].id == o.class_;
    assert ClassId(all[n]) != ClassId(all[k]);
  }

  lemma {:induction false} SelectionIsOrdered(overlays: seq<Overlay>, all: seq<OverlayClass>, n: nat, profile: Profile,
                                              selected: seq<Overlay>)
    requires ProfileOk(profile, all, overlays) && DistinctKeys(overlays, OverlayId)
    requires StrictlyOrdered(all, ClassOrder) && DistinctKeys(all, ClassId) && n <= |all|
    requires Answers(overlays, SelectedIds(all[n..], profile), selected)
    ensures OrderedFrom(overlays, all, n, selected)
    decreases |all| - n
  {
    hide StrictlyOrdered, DistinctKeys, OrderedFrom, ProfileOk, Answers, SelectedIds;
    if n < |all| {
      var head := profile.Selected(all[n].id);
      FirstClass(all, n, profile);
      AnswersSplit(overlays, head, SelectedIds(all[n + 1..], profile), selected);
      SelectionIsOrdered(overlays, all, n + 1, profile, selected[|head|..]);
      AddClass(overlays, all, n, profile, selected[..|head|], selected[|head|..]);
      assert selected == selected[..|head|] + selected[|head|..];
    } else {
      NothingSelected(overlays, all, profile, selected);
    }
  }

  lemma NothingSelected(overlays: seq<Overlay>, all: seq<OverlayClass>, profile: Profile, selected: seq<Overlay>)
    requires Answers(overlays, SelectedIds(all[|all|..], profile), selected)
    ensures OrderedFrom(overlays, all, |all|, selected)
  {
    assert all[|all|..] == [];
  }

  lemma AddClass(overlays: seq<Overlay>, all: seq<OverlayClass>, n: nat, profile: Profile,
                 head: seq<Overlay>, rest: seq<Overlay>)
    requires ProfileOk(profile, all, overlays) && DistinctKeys(overlays, OverlayId)
    requires StrictlyOrdered(all, ClassOrder) && DistinctKeys(all, ClassId) && n < |all|
    requires Answers(overlays, profile.Selected(all[n].id), head) && OrderedFrom(overlays, all, n + 1, rest)
    ensures OrderedFrom(overlays, all, n, head + rest)
  {
    hide StrictlyOrdered, DistinctKeys, OrderedFrom, ProfileOk, Answers;
    HeadHasClass(overlays, all, all[n], profile, head);
    HeadBeforeRest(overlays, all, n, head, rest);
  }

  lemma FirstClass(all: seq<OverlayClass>, n: nat, profile: Profile)
    requires n < |all|
    ensures SelectedIds(all[n..], profile) == profile.Selected(all[n].id) + SelectedIds(all[n + 1..], profile)
  {
    assert all[n..][1..] == all[n + 1..] && all[n..][0] == all[n];
  }

  lemma AnswersSplit(overlays: seq<Overlay>, a: seq<Identifier>, b: seq<Identifier>, selected: seq<Overlay>)
    requires Answers(overlays, a + b, selected)
    ensures |selected| == |a| + |b|
    ensures Answers(overlays, a, selected[..|a|]) && Answers(overlays, b, selected[|a|..])
  {
    assert forall i :: 0 <= i < |a| ==> (a + b)[i] == a[i];
    assert forall i :: 0 <= i < |b| ==> (a + b)[|a| + i] == b[i] && selected[|a|..][i] == selected[|a| + i];
  }

  lemma HeadHasClass(overlays: seq<Overlay>, all: seq<OverlayClass>, c: OverlayClass, profile: Profile,
                     head: seq<Overlay>)
    requires ProfileOk(profile, all, overlays) && DistinctKeys(overlays, OverlayId) && c in all
    requires Answers(overlays, profile.Selected(c.id), head)
    ensures forall i :: 0 <= i < |head| ==> head[i].class_ == c.id && head[i] in overlays
    ensures forall i, j :: 0 <= i < j < |head| ==> head[i].id != head[j].id
  {
    var ids := profile.Selected(c.id);
    assert SelectionOk(ids, overlays, c.id);
    hide DistinctKeys, ProfileOk;
    forall i | 0 <= i < |head|
      ensures head[i].class_ == c.id
    {
      assert Declares(overlays, ids[i], c.id);
      var o :| o in overlays && o.id == ids[i] && o.class_ == c.id;
      UniqueOverlay(overlays, o, head[i]);
    }
    forall i, j | 0 <= i < j < |head|
      ensures head[i].id != head[j].id
    {
      assert ids[i] != ids[j];
    }
  }

  lemma HeadBeforeRest(overlays: seq<Overlay>, all: seq<OverlayClass>, n: nat, head: seq<Overlay>, rest: seq<Overlay>)
    requires StrictlyOrdered(all, ClassOrder) && DistinctKeys(all, ClassId) && n < |all|
    requires DistinctKeys(overlays, OverlayId)
    requires forall i :: 0 <= i < |head| ==> head[i].class_ == all[n].id && head[i] in overlays
    requires forall i, j :: 0 <= i < j < |head| ==> head[i].id != head[j].id
    requires OrderedFrom(overlays, all, n + 1, rest)
    ensures OrderedFrom(overlays, all, n, head + rest)
  {
    hide StrictlyOrdered, DistinctKeys, NotAfter;
    var selected := head + rest;
    var m := |head|;
    assert forall i :: m <= i < |selected| ==> selected[i] == rest[i - m];
    forall i | 0 <= i < |selected|
      ensures selected[i] in overlays && ClassFrom(all, n, selected[i])
    {
      if i >= m {
        LaterClassDiffers(all, n, rest[i - m]);
      }
    }
    hide ClassFrom;
    forall i, j | 0 <= i < j < |selected|
      ensures selected[i].id != selected[j].id && NotAfter(all, selected[i], selected[j])
    {
      if i < m {
        HeadNotAfter(all, n, selected[i], selected[j]);
        if m <= j {
          LaterClassDiffers(all, n, rest[j - m]);
          if selected[i].id == selected[j].id {
            UniqueOverlay(overlays, selected[i], selected[j]);
          }
        }
      } else {
        assert rest[i - m].id != rest[j - m].id && NotAfter(all, rest[i - m], rest[j - m]);
      }
    }
  }

  // ----- what is assembled

  /** The segments' bytes with exactly two line feeds between neighbours. */
  function Join(segments: seq<Segment>): Text {
    if segments == [] then []
    else if |segments| == 1 then segments[0].bytes
    else Join(segments[..|segments| - 1]) + Ascii("\n\n") + segments[|segments| - 1].bytes
  }

  function TotalBytes(segments: seq<Segment>): nat {
    if segments == [] then 0
    else TotalBytes(segments[..|segments| - 1]) + |segments[|segments| - 1].bytes|
  }

  lemma {:induction false} JoinLength(segments: seq<Segment>)
    ensures |Join(segments)| == TotalBytes(segments) + (if segments == [] then 0 else 2 * (|segments| - 1))
  {
    if segments != [] {
      JoinLength(segments[..|segments| - 1]);
      if |segments| == 1 {
        assert segments[..0] == [];
      }
    }
  }

  function EntriesOf(segments: seq<Segment>): (entries: seq<Entry>)
    ensures |entries| == |segments|
    ensures forall i :: 0 <= i < |segments| ==>
              entries[i] == Entry(segments[i].class_, segments[i].overlay, segments[i].source, |segments[i].bytes|)
  {
    seq(|segments|, i requires 0 <= i < |segments| =>
      Entry(segments[i].class_, segments[i].overlay, segments[i].source, |segments[i].bytes|))
  }

  function DraftOf(segments: seq<Segment>): Draft {
    Draft(EntriesOf(segments), segments, Join(segments), TotalBytes(segments))
  }

  /** The source gives this overlay's bytes, within the limit. */
  ghost predicate Offers(source: Source, overlay: Overlay, maximum: nat) {
    source(overlay.source, maximum).Success? && |source(overlay.source, maximum).value| <= maximum
  }

  ghost predicate LoadsAll(selected: seq<Overlay>, source: Source, maximum: nat) {
    forall i :: 0 <= i < |selected| ==> Offers(source, selected[i], maximum)
  }

  /** The segments, one for each overlay: its class, name and place, and the bytes the source gives. */
  ghost function Loaded(selected: seq<Overlay>, source: Source, maximum: nat): (segments: seq<Segment>)
    requires LoadsAll(selected, source, maximum)
    ensures |segments| == |selected|
    ensures forall i :: 0 <= i < |selected| ==>
              && segments[i].class_ == selected[i].class_ && segments[i].overlay == selected[i].id
              && segments[i].source == selected[i].source
              && source(selected[i].source, maximum) == Success(segments[i].bytes)
  {
    seq(|selected|, i requires 0 <= i < |selected| =>
      assert Offers(source, selected[i], maximum);
      Segment(selected[i].class_, selected[i].id, selected[i].source, source(selected[i].source, maximum).value))
  }

  lemma LoadDecides(selected: seq<Overlay>, source: Source, maximum: nat)
    requires selected != []
    ensures var r := LoadSegment(selected[0], source, maximum);
            && (r.Success? <==> Offers(source, selected[0], maximum))
            && (LoadsAll(selected, source, maximum) ==> r == Success(Loaded(selected, source, maximum)[0]))
  {
  }

  lemma AddSegmentExtends(segments: seq<Segment>, overlay: Overlay, source: Source, limits: Limits)
    ensures var s, r := LoadSegment(overlay, source, limits.maximumOverlayBytes),
                        AddSegment(DraftOf(segments), overlay, source, limits);
            && (r.Success? <==> s.Success? && |Join(segments + [s.value])| <= limits.maximumOutputBytes)
            && (r.Success? ==> r.value == DraftOf(segments + [s.value]))
  {
    hide LoadSegment;
    var s := LoadSegment(overlay, source, limits.maximumOverlayBytes);
    if s.Success? {
      var more := segments + [s.value];
      assert more[..|segments|] == segments;
      JoinLength(segments);
      JoinLength(more);
      assert EntriesOf(more) ==
             EntriesOf(segments) + [Entry(s.value.class_, s.value.overlay, s.value.source, |s.value.bytes|)];
      if segments == [] {
        assert [] + [] + s.value.bytes == s.value.bytes;
      }
    }
  }

  lemma {:induction false} JoinGrows(segments: seq<Segment>, more: seq<Segment>)
    ensures |Join(segments)| <= |Join(segments + more)|
    decreases |more|
  {
    if more == [] {
      assert segments + more == segments;
    } else {
      var front := more[..|more| - 1];
      JoinGrows(segments, front);
      JoinLength(segments + front);
      JoinLength(segments + more);
      assert (segments + more)[..|segments + more| - 1] == segments + front;
    }
  }

  lemma {:induction false} AddSegmentsDelivers(segments: seq<Segment>, selected: seq<Overlay>, source: Source,
                                               limits: Limits)
    requires |Join(segments)| <= limits.maximumOutputBytes
    ensures var r := AddSegments(DraftOf(segments), selected, source, limits);
            var max := limits.maximumOverlayBytes;
            && (r.Success? <==> LoadsAll(selected, source, max)
                                && |Join(segments + Loaded(selected, source, max))| <= limits.maximumOutputBytes)
            && (r.Success? ==> r.value == DraftOf(segments + Loaded(selected, source, max)))
    decreases |selected|
  {
    var max := limits.maximumOverlayBytes;
    hide LoadSegment, AddSegment, Offers, Join, DraftOf;
    if selected == [] {
      assert segments + Loaded(selected, source, max) == segments;
    } else {
      AddSegmentExtends(segments, selected[0], source, limits);
      LoadDecides(selected, source, max);
      var s := LoadSegment(selected[0], source, max);
      assert LoadsAll(selected, source, max) <==> s.Success? && LoadsAll(selected[1..], source, max) by {
        LoadsStep(selected, source, max);
      }
      if s.Success? {
        var more := segments + [s.value];
        if LoadsAll(selected, source, max) {
          assert segments + Loaded(selected, source, max) == more + Loaded(selected[1..], source, max);
          JoinGrows(more, Loaded(selected[1..], source, max));
        }
        if |Join(more)| <= limits.maximumOutputBytes {
          AddSegmentsDelivers(more, selected[1..], source, limits);
        }
      }
    }
  }

  lemma LoadsStep(selected: seq<Overlay>, source: Source, maximum: nat)
    requires selected != []
    ensures LoadsAll(selected, source, maximum) <==>
            Offers(source, selected[0], maximum) && LoadsAll(selected[1..], source, maximum)
    ensures LoadsAll(selected, source, maximum) ==>
              Loaded(selected, source, maximum)[1..] == Loaded(selected[1..], source, maximum)
  {
    hide Offers;
    assert forall i :: 0 < i < |selected| ==> selected[i] == selected[1..][i - 1];
    assert forall i :: 0 <= i < |selected[1..]| ==> selected[1..][i] == selected[i + 1];
  }

  // ----- conflicts

  ghost predicate Compatible(selected: seq<Overlay>) {
    forall i, j :: 0 <= i < |selected| && 0 <= j < |selected| ==> selected[j].id !in selected[i].incompatibleWith
  }

  lemma {:induction false} FirstConflictOfFinds(overlay: Overlay, others: seq<Overlay>)
    ensures FirstConflictOf(overlay, others).None? <==>
            forall j :: 0 <= j < |others| ==> others[j].id !in overlay.incompatibleWith
  {
    if others != [] {
      FirstConflictOfFinds(overlay, others[1..]);
      assert forall j :: 0 < j < |others| ==> others[j] == others[1..][j - 1];
      assert forall j :: 0 <= j < |others[1..]| ==> others[1..][j] == others[j + 1];
    }
  }

  lemma {:induction false} FirstConflictFinds(overlays: seq<Overlay>, selected: seq<Overlay>)
    ensures FirstConflict(overlays, selected).None? <==>
            forall i, j :: 0 <= i < |overlays| && 0 <= j < |selected| ==>
                selected[j].id !in overlays[i].incompatibleWith
  {
    if overlays != [] {
      FirstConflictOfFinds(overlays[0], selected);
      FirstConflictFinds(overlays[1..], selected);
      assert forall j :: 0 < j < |overlays| ==> overlays[j] == overlays[1..][j - 1];
      assert forall j :: 0 <= j < |overlays[1..]| ==> overlays[1..][j] == overlays[j + 1];
    }
  }

  // ----- main results

  /** For an accepted pack the selection is found, in class order, once each, every overlay under its own class. */
  lemma AcceptedSelectionResolves(pack: OverlayPack, profile: Profile) returns (selected: seq<Overlay>)
    requires Accepted(pack) && profile in pack.profiles
    ensures ResolveSelected(pack, profile) == Success(selected)
    ensures Answers(pack.overlays, SelectedIds(pack.classes, profile), selected)
    ensures WellOrdered(pack.classes, selected)
  {
    hide NewPack, Consistent, DistinctKeys, StrictlyOrdered, ProfileOk, OverlayOk, ResolveIds, SelectedIds;
    AcceptedIsNormal(pack);
    ConsistentParts(pack.schemaFamily, pack.classes, pack.overlays, pack.profiles, pack.variables);
    SelectedIdsDeclared(pack.overlays, pack.classes, profile);
    ResolveAnswers(pack.overlays, SelectedIds(pack.classes, profile));
    selected := ResolveSelected(pack, profile).value;
    assert pack.classes[0..] == pack.classes;
    SelectionIsOrdered(pack.overlays, pack.classes, 0, profile, selected);
  }

  /** What a composition of these overlays has to be. */
  ghost predicate Composable(selected: seq<Overlay>, source: Source, limits: Limits) {
    && |selected| <= limits.maximumOverlays && Compatible(selected)
    && LoadsAll(selected, source, limits.maximumOverlayBytes)
    && |Join(Loaded(selected, source, limits.maximumOverlayBytes))| <= limits.maximumOutputBytes
  }

  /**
   Composing an accepted pack never misses an overlay. It succeeds exactly when
   the profile exists, its selection is small enough and free of conflicts,
   every source loads within its limit and the joined output fits; and then the
   result is the loaded segments in selection order, joined by two line feeds.
   */
  lemma ComposeDelivers(pack: OverlayPack, profile: Profile, source: Source, limits: Limits)
    requires Accepted(pack) && profile in pack.profiles
    ensures var r := ComposeProfile(pack, profile.id, source, limits);
            && ResolveSelected(pack, profile).Success?
            && var selected := ResolveSelected(pack, profile).value;
            && (r.Success? <==> Composable(selected, source, limits))
            && (r.Failure? ==> !r.error.MissingOverlay? && !r.error.UnknownProfile?)
            && (r.Success? ==>
                  var segments := Loaded(selected, source, limits.maximumOverlayBytes);
                  r.value == Composition(Manifest(pack.id, pack.schemaFamily, profile.id, EntriesOf(segments),
                                                  TotalBytes(segments), |Join(segments)|),
                                         segments, Join(segments)))
  {
    hide Accepted, ResolveSelected, FirstConflict, AddSegments, WellOrdered, Answers, Join, TotalBytes, EntriesOf,
         LoadsAll, Compatible;
    var selected := AcceptedSelectionResolves(pack, profile);
    FoundInAccepted(pack, profile);
    hide FindProfile;
    SelectionIsChecked(selected);
    SelectionIsAssembled(pack, profile, selected, source, limits);
  }

  /** An accepted pack misses a profile exactly when none has the identifier. */
  lemma UnknownProfileExactly(pack: OverlayPack, id: Identifier, source: Source, limits: Limits)
    requires Accepted(pack)
    ensures ComposeProfile(pack, id, source, limits) == Failure(UnknownProfile(id)) <==>
            forall profile :: profile in pack.profiles ==> profile.id != id
  {
    hide Accepted, ResolveSelected;
    if profile :| profile in pack.profiles && profile.id == id {
      ComposeDelivers(pack, profile, source, limits);
    } else {
      ProfileNotFound(pack.profiles, id);
    }
  }

  lemma SelectionIsChecked(selected: seq<Overlay>)
    ensures var conflict := FirstConflict(selected, selected);
            (conflict.None? <==> Compatible(selected)) && (conflict.Some? ==> conflict.value.IncompatibleOverlays?)
  {
    FirstConflictFinds(selected, selected);
    ConflictIsReported(selected, selected);
  }

  lemma SelectionIsAssembled(pack: OverlayPack, profile: Profile, selected: seq<Overlay>, source: Source,
                             limits: Limits)
    ensures var r := AddSegments(EMPTY_DRAFT, selected, source, limits);
            var max := limits.maximumOverlayBytes;
            && (r.Success? <==> LoadsAll(selected, source, max)
                                && |Join(Loaded(selected, source, max))| <= limits.maximumOutputBytes)
            && (r.Failure? ==> r.error.OverlayTooLarge? || r.error.OutputTooLarge? || r.error.SourceRejected?)
            && (r.Success? ==>
                  var segments := Loaded(selected, source, max);
                  Finish(pack, profile, r.value) ==
                  Composition(Manifest(pack.id, pack.schemaFamily, profile.id, EntriesOf(segments),
                                       TotalBytes(segments), |Join(segments)|),
                              segments, Join(segments)))
  {
    assert DraftOf([]) == EMPTY_DRAFT;
    hide AddSegments, LoadsAll;
    AddSegmentsDelivers([], selected, source, limits);
    AddSegmentsError(EMPTY_DRAFT, selected, source, limits);
    if LoadsAll(selected, source, limits.maximumOverlayBytes) {
      assert [] + Loaded(selected, source, limits.maximumOverlayBytes)
             == Loaded(selected, source, limits.maximumOverlayBytes);
    }
  }

  lemma FoundInAccepted(pack: OverlayPack, profile: Profile)
    requires Accepted(pack) && profile in pack.profiles
    ensures FindProfile(pack.profiles, profile.id) == Some(profile)
  {
    hide NewPack, Consistent, DistinctKeys, StrictlyOrdered, ProfileOk, OverlayOk;
    AcceptedIsNormal(pack);
    ConsistentParts(pack.schemaFamily, pack.classes, pack.overlays, pack.profiles, pack.variables);
    ProfileFound(pack.profiles, profile);
  }

  lemma {:induction false} AddSegmentsError(d: Draft, selected: seq<Overlay>, source: Source, limits: Limits)
    ensures var r := AddSegments(d, selected, source, limits);
            r.Failure? ==> r.error.OverlayTooLarge? || r.error.OutputTooLarge? || r.error.SourceRejected?
    decreases |selected|
  {
    if selected != [] {
      var next := AddSegment(d, selected[0], source, limits);
      if next.Success? {
        AddSegmentsError(next.value, selected[1..], source, limits);
      }
    }
  }

  lemma {:induction false} ConflictIsReported(overlays: seq<Overlay>, selected: seq<Overlay>)
    ensures FirstConflict(overlays, selected).Some? ==> FirstConflict(overlays, selected).value.IncompatibleOverlays?
  {
    if overlays != [] {
      ConflictOfIsReported(overlays[0], selected);
      ConflictIsReported(overlays[1..], selected);
    }
  }

  lemma {:induction false} ConflictOfIsReported(overlay: Overlay, others: seq<Overlay>)
    ensures FirstConflictOf(overlay, others).Some? ==> FirstConflictOf(overlay, others).value.IncompatibleOverlays?
  {
    if others != [] {
      ConflictOfIsReported(overlay, others[1..]);
    }
  }

  /** The length of a composition: its sources plus two bytes between neighbours. */
  lemma ComposedLength(pack: OverlayPack, profile: Profile, source: Source, limits: Limits)
    requires Accepted(pack) && profile in pack.profiles && ComposeProfile(pack, profile.id, source, limits).Success?
    ensures var c := ComposeProfile(pack, profile.id, source, limits).value;
            var n := |c.segments|;
            && n == |SelectedIds(pack.classes, profile)|
            && c.manifest.outputBytes == |c.context| <= limits.maximumOutputBytes
            && |c.context| == c.manifest.sourceBytes + (if n == 0 then 0 else 2 * (n - 1))
            && (forall i :: 0 <= i < n ==> c.segments[i].overlay == SelectedIds(pack.classes, profile)[i]
                                           && |c.segments[i].bytes| <= limits.maximumOverlayBytes)
  {
    hide Accepted, ComposeProfile, SelectedIds, Join, TotalBytes, WellOrdered;
    ComposeDelivers(pack, profile, source, limits);
    var selected := AcceptedSelectionResolves(pack, profile);
    hide ResolveSelected, EntriesOf;
    JoinLength(Loaded(selected, source, limits.maximumOverlayBytes));
  }
}
