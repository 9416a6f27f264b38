/** The overlay pack aggregate: normalisation and cross-validation. */
module Pack {
  import opened Bytes
  import opened Sorting
  import opened Distribution

  const MAX_IDENTIFIER_BYTES: nat := 128
  const U32_MAX: nat := 0xFFFF_FFFF

  type U32 = n: nat | n <= U32_MAX

  predicate IsIdentifierByte(b: Byte) {
    48 <= b <= 57 || 65 <= b <= 90 || 97 <= b <= 122 || b == 45 || b == 46 || b == 95
  }

  predicate ValidIdentifier(t: Text) {
    0 < |t| <= MAX_IDENTIFIER_BYTES && forall b :: b in t ==> IsIdentifierByte(b)
  }

  type Identifier = t: Text | ValidIdentifier(t) witness [97]

  /** What `PackRelativePath::parse` accepts: no backslash, colon or NUL, no empty, `.` or `..` segment. */
  predicate ValidPackPath(t: Text) {
    && t != [] && t[0] != SLASH && t[|t| - 1] != SLASH
    && (forall b :: b in t ==> b != 92 && b != 58 && b != 0)
    && forall s :: s in Split(t) ==> ValidSegment(s)
  }

  lemma LetterIsPackPath()
    ensures ValidPackPath([97])
  {
    assert Split([]) == [[]];
    var one: Text := [97];
    assert one[1..] == [];
    var segment: Text := [97] + [];
    assert segment == one && Split(one) == [segment];
  }

  type PackPath = t: Text | ValidPackPath(t) witness (LetterIsPackPath(); [97])

  datatype Cardinality = Cardinality(minimum: U32, maximum: Option<U32>) {
    predicate Valid() {
      maximum.Some? ==> minimum <= maximum.value
    }

    predicate Accepts(count: nat) {
      count <= U32_MAX && minimum <= count && (maximum.Some? ==> count <= maximum.value)
    }
  }

  type Bounds = c: Cardinality | c.Valid() witness Cardinality(0, None)

  datatype Sensitivity = Public | Secret

  datatype Variable = Variable(name: Identifier, sensitivity: Sensitivity)

  datatype OverlayClass = OverlayClass(id: Identifier, order: U32, cardinality: Bounds)

  datatype Overlay = Overlay(id: Identifier, class_: Identifier, source: PackPath, incompatibleWith: set<Identifier>)

  datatype Profile = Profile(id: Identifier, selections: map<Identifier, seq<Identifier>>) {
    /** The overlays selected in one class, in the profile's order. */
    function Selected(class_: Identifier): seq<Identifier> {
      if class_ in selections then selections[class_] else []
    }
  }

  datatype OverlayPack = OverlayPack(id: Identifier, schemaFamily: Text, classes: seq<OverlayClass>,
                                     overlays: seq<Overlay>, profiles: seq<Profile>, variables: seq<Variable>)

  datatype Kind = KClass | KOverlay | KProfile | KVariable

  datatype DomainError =
    | InvalidIdentifier(value: Text)
    | InvalidPackRelativePath(value: Text)
    | InvalidCardinality(minimum: nat, maximum: Option<nat>)
    | EmptySchemaFamily
    | DuplicateIdentifier(kind: Kind, identifier: seq<int>)
    | DuplicateClassOrder(order: nat)
    | UnknownClass(overlay: Text, class_: Text)
    | UnknownProfileClass(profile: Text, class_: Text)
    | UnknownOverlayReference(overlay: Text)
    | DuplicateProfileSelection(overlay: Text)
    | OverlayClassMismatch(overlay: Text, expected: Text, actual: Text)
    | CardinalityViolation(profile: Text, class_: Text, count: nat)

  // ----- keys

  function ClassId(c: OverlayClass): seq<int> { c.id }

  /** Classes sort by order, then identifier. */
  function ClassKey(c: OverlayClass): seq<int> { [c.order as int] + c.id }

  function ClassOrder(c: OverlayClass): seq<int> { [c.order as int] }

  function OverlayId(o: Overlay): seq<int> { o.id }

  function ProfileId(p: Profile): seq<int> { p.id }

  function VariableName(v: Variable): seq<int> { v.name }

  function ClassIds(classes: seq<OverlayClass>): set<Text> {
    set c | c in classes :: c.id
  }

  function OverlayIds(overlays: seq<Overlay>): set<Text> {
    set o | o in overlays :: o.id
  }

  // ----- the checks, in the order they are made

  /** `ensure_unique`: the first identifier met a second time. */
  function FirstRepeat<T>(s: seq<T>, name: T -> seq<int>, seen: set<seq<int>>): Option<seq<int>> {
    if s == [] then None
    else if name(s[0]) in seen then Some(name(s[0]))
    else FirstRepeat(s[1..], name, seen + {name(s[0])})
  }

  function EnsureUnique<T>(s: seq<T>, name: T -> seq<int>, kind: Kind): Option<DomainError> {
    var repeat := FirstRepeat(s, name, {});
    if repeat.Some? then Some(DuplicateIdentifier(kind, repeat.value)) else None
  }

  function FirstSharedOrder(classes: seq<OverlayClass>): Option<DomainError> {
    if |classes| < 2 then None
    else if classes[0].order == classes[1].order then Some(DuplicateClassOrder(classes[0].order))
    else FirstSharedOrder(classes[1..])
  }

  function FirstUnknown(references: seq<Text>, known: set<Text>): Option<Text> {
    if references == [] then None
    else if references[0] !in known then Some(references[0])
    else FirstUnknown(references[1..], known)
  }

  function CheckOverlays(overlays: seq<Overlay>, classIds: set<Text>, overlayIds: set<Text>): Option<DomainError> {
    if overlays == [] then None
    else
      var o := overlays[0];
      if o.class_ !in classIds then Some(UnknownClass(o.id, o.class_))
      else
        var unknown := FirstUnknown(Listing(o.incompatibleWith), overlayIds);
        if unknown.Some? then Some(UnknownOverlayReference(unknown.value))
        else CheckOverlays(overlays[1..], classIds, overlayIds)
  }

  function Find(overlays: seq<Overlay>, id: Text): Option<Overlay> {
    if overlays == [] then None
    else if overlays[0].id == id then Some(overlays[0])
    else Find(overlays[1..], id)
  }

  function CheckSelection(selected: seq<Text>, seen: set<Text>, overlays: seq<Overlay>, class_: Text)
    : Option<DomainError>
  {
    if selected == [] then None
    else if selected[0] in seen then Some(DuplicateProfileSelection(selected[0]))
    else
      var o := Find(overlays, selected[0]);
      if o.None? then Some(UnknownOverlayReference(selected[0]))
      else if o.value.class_ != class_ then Some(OverlayClassMismatch(o.value.id, class_, o.value.class_))
      else CheckSelection(selected[1..], seen + {selected[0]}, overlays, class_)
  }

  function CheckClasses(profile: Profile, classes: seq<OverlayClass>, overlays: seq<Overlay>): Option<DomainError> {
    if classes == [] then None
    else
      var c := classes[0];
      var selected := profile.Selected(c.id);
      if !c.cardinality.Accepts(|selected|) then Some(CardinalityViolation(profile.id, c.id, |selected|))
      else
        var problem := CheckSelection(selected, {}, overlays, c.id);
        if problem.Some? then problem else CheckClasses(profile, classes[1..], overlays)
  }

  function CheckProfile(profile: Profile, classes: seq<OverlayClass>, overlays: seq<Overlay>): Option<DomainError> {
    var unknown := FirstUnknown(Listing(profile.selections.Keys), ClassIds(classes));
    if unknown.Some? then Some(UnknownProfileClass(profile.id, unknown.value))
    else CheckClasses(profile, classes, overlays)
  }

  function CheckProfiles(profiles: seq<Profile>, classes: seq<OverlayClass>, overlays: seq<Overlay>)
    : Option<DomainError>
  {
    if profiles == [] then None
    else
      var problem := CheckProfile(profiles[0], classes, overlays);
      if problem.Some? then problem else CheckProfiles(profiles[1..], classes, overlays)
  }

  function OrElse(first: Option<DomainError>, second: Option<DomainError>): Option<DomainError> {
    if first.Some? then first else second
  }

  /** Duplicates are reported in declaration order, before anything is sorted. */
  function CheckUnique(classes: seq<OverlayClass>, overlays: seq<Overlay>, profiles: seq<Profile>,
                       variables: seq<Variable>): Option<DomainError> {
    OrElse(EnsureUnique(classes, ClassId, KClass),
           OrElse(EnsureUnique(overlays, OverlayId, KOverlay),
                  OrElse(EnsureUnique(profiles, ProfileId, KProfile),
                         EnsureUnique(variables, VariableName, KVariable))))
  }

  function CheckReferences(classes: seq<OverlayClass>, overlays: seq<Overlay>, profiles: seq<Profile>)
    : Option<DomainError>
  {
    OrElse(FirstSharedOrder(classes),
           OrElse(CheckOverlays(overlays, ClassIds(classes), OverlayIds(overlays)),
                  CheckProfiles(profiles, classes, overlays)))
  }

  /** `OverlayPack::new`. */
  function NewPack(id: Identifier, schemaFamily: Text, classes: seq<OverlayClass>, overlays: seq<Overlay>,
                   profiles: seq<Profile>, variables: seq<Variable>): Result<OverlayPack, DomainError> {
    if schemaFamily == [] then Failure(EmptySchemaFamily)
    else
      var repeat := CheckUnique(classes, overlays, profiles, variables);
      if repeat.Some? then Failure(repeat.value)
      else
        var cs, os, ps := SortBy(classes, ClassKey), SortBy(overlays, OverlayId), SortBy(profiles, ProfileId);
        var problem := CheckReferences(cs, os, ps);
        if problem.Some? then Failure(problem.value)
        else Success(OverlayPack(id, schemaFamily, cs, os, ps, SortBy(variables, VariableName)))
  }

  // ----- what a pack must satisfy, independent of order

  ghost predicate OverlayOk(o: Overlay, classIds: set<Text>, overlayIds: set<Text>) {
    o.class_ in classIds && forall other :: other in o.incompatibleWith ==> other in overlayIds
  }

  /** No repeated identifier, and every one names an overlay of this class. */
  ghost predicate SelectionOk(selected: seq<Text>, overlays: seq<Overlay>, class_: Text) {
    && (forall i, j :: 0 <= i < j < |selected| ==> selected[i] != selected[j])
    && (forall i :: 0 <= i < |selected| ==> Declares(overlays, selected[i], class_))
  }

  ghost predicate Declares(overlays: seq<Overlay>, id: Text, class_: Text) {
    exists o :: o in overlays && o.id == id && o.class_ == class_
  }

  ghost predicate CountFits(count: nat, cardinality: Bounds) {
    && cardinality.minimum <= count <= 0xFFFF_FFFF
    && (cardinality.maximum == None || count <= cardinality.maximum.value)
  }

  ghost predicate ProfileOk(p: Profile, classes: seq<OverlayClass>, overlays: seq<Overlay>) {
    && (forall id :: id in p.selections ==> id in ClassIds(classes))
    && (forall c :: c in classes ==>
          var selected := if c.id in p.selections then p.selections[c.id] else [];
          CountFits(|selected|, c.cardinality) && SelectionOk(selected, overlays, c.id))
  }

  ghost predicate Consistent(schemaFamily: Text, classes: seq<OverlayClass>, overlays: seq<Overlay>,
                             profiles: seq<Profile>, variables: seq<Variable>) {
    && schemaFamily != []
    && DistinctKeys(classes, ClassId) && DistinctKeys(classes, ClassOrder)
    && DistinctKeys(overlays, OverlayId) && DistinctKeys(profiles, ProfileId) && DistinctKeys(variables, VariableName)
    && (forall o :: o in overlays ==> OverlayOk(o, ClassIds(classes), OverlayIds(overlays)))
    && (forall p :: p in profiles ==> ProfileOk(p, classes, overlays))
  }

  // ----- each check against its meaning

  lemma {:induction false} FirstRepeatFinds<T>(s: seq<T>, name: T -> seq<int>, seen: set<seq<int>>)
    ensures FirstRepeat(s, name, seen).None? <==>
            DistinctKeys(s, name) && forall i :: 0 <= i < |s| ==> name(s[i]) !in seen
  {
    if s != [] {
      var rest := s[1..];
      FirstRepeatFinds(rest, name, seen + {name(s[0])});
      assert forall i :: 0 < i < |s| ==> s[i] == rest[i - 1];
      if DistinctKeys(s, name) {
        assert DistinctKeys(rest, name);
        forall i | 0 <= i < |rest|
          ensures name(rest[i]) != name(s[0])
        {
          assert name(s[0]) != name(s[i + 1]);
        }
      }
      if DistinctKeys(rest, name) && forall i :: 0 <= i < |rest| ==> name(rest[i]) !in seen + {name(s[0])} {
        forall i, j | 0 <= i < j < |s|
          ensures name(s[i]) != name(s[j])
        {
          assert s[j] == rest[j - 1];
          if i > 0 {
            assert s[i] == rest[i - 1];
          }
        }
      }
    }
  }

  lemma EnsureUniqueDecides<T>(s: seq<T>, name: T -> seq<int>, kind: Kind)
    ensures EnsureUnique(s, name, kind).None? <==> DistinctKeys(s, name)
  {
    FirstRepeatFinds(s, name, {});
  }

  lemma {:induction false} FirstSharedOrderFinds(classes: seq<OverlayClass>)
    ensures FirstSharedOrder(classes).None? <==>
            forall i :: 0 <= i < |classes| - 1 ==> ClassOrder(classes[i]) != ClassOrder(classes[i + 1])
  {
    if |classes| >= 2 {
      FirstSharedOrderFinds(classes[1..]);
      assert classes[1..][0] == classes[1];
      assert forall i :: 1 <= i < |classes| - 1 ==>
               classes[i] == classes[1..][i - 1] && classes[i + 1] == classes[1..][i];
      assert ClassOrder(classes[0]) == ClassOrder(classes[1]) <==> classes[0].order == classes[1].order by {
        assert ClassOrder(classes[0])[0] == classes[0].order && ClassOrder(classes[1])[0] == classes[1].order;
      }
    }
  }

  /** Sorting by order and then identifier orders by order. */
  lemma SortedByOrder(classes: seq<OverlayClass>)
    requires Ordered(classes, ClassKey)
    ensures Ordered(classes, ClassOrder)
  {
    forall i, j | 0 <= i < j < |classes|
      ensures !Before(ClassOrder(classes[j]), ClassOrder(classes[i]))
    {
      assert !Before(ClassKey(classes[j]), ClassKey(classes[i]));
      assert ClassKey(classes[i])[0] == classes[i].order && ClassKey(classes[j])[0] == classes[j].order;
      assert ClassOrder(classes[i])[1..] == [] && ClassOrder(classes[j])[1..] == [];
    }
  }

  lemma SharedOrderDecides(classes: seq<OverlayClass>)
    requires Ordered(classes, ClassKey)
    ensures FirstSharedOrder(classes).None? <==> DistinctKeys(classes, ClassOrder)
  {
    FirstSharedOrderFinds(classes);
    SortedByOrder(classes);
    if FirstSharedOrder(classes).None? {
      AdjacentTestSuffices(classes, ClassOrder);
      StrictIsDistinct(classes, ClassOrder);
    }
  }

  lemma {:induction false} FirstUnknownFinds(references: seq<Text>, known: set<Text>)
    ensures FirstUnknown(references, known).None? <==> forall r: Text :: r in references ==> r in known
  {
    if references != [] {
      FirstUnknownFinds(references[1..], known);
      assert references == [references[0]] + references[1..];
    }
  }

  lemma {:induction false} CheckOverlaysDecides(overlays: seq<Overlay>, classIds: set<Text>, overlayIds: set<Text>)
    ensures CheckOverlays(overlays, classIds, overlayIds).None? <==>
            forall o :: o in overlays ==> OverlayOk(o, classIds, overlayIds)
  {
    if overlays != [] {
      var o := overlays[0];
      FirstUnknownFinds(Listing(o.incompatibleWith), overlayIds);
      CheckOverlaysDecides(overlays[1..], classIds, overlayIds);
      assert overlays == [o] + overlays[1..];
      hide Listing, FirstUnknown;
      assert OverlayOk(o, classIds, overlayIds) <==>
             o.class_ in classIds && FirstUnknown(Listing(o.incompatibleWith), overlayIds).None?;
    }
  }

  lemma {:induction false} FindDecides(overlays: seq<Overlay>, id: Text)
    requires DistinctKeys(overlays, OverlayId)
    ensures forall o :: o in overlays && o.id == id <==> Find(overlays, id) == Some(o)
  {
    if overlays != [] {
      assert DistinctKeys(overlays[1..], OverlayId);
      FindDecides(overlays[1..], id);
      assert overlays == [overlays[0]] + overlays[1..];
      forall o | o in overlays[1..]
        ensures o.id != overlays[0].id
      {
        var i :| 0 < i < |overlays| && overlays[i] == o;
        assert OverlayId(overlays[0]) != OverlayId(overlays[i]);
      }
    }
  }

  ghost predicate SelectionOkBeyond(selected: seq<Text>, seen: set<Text>, overlays: seq<Overlay>, class_: Text) {
    SelectionOk(selected, overlays, class_) && forall i :: 0 <= i < |selected| ==> selected[i] !in seen
  }

  lemma SelectionStep(selected: seq<Text>, seen: set<Text>, overlays: seq<Overlay>, class_: Text)
    requires selected != []
    ensures SelectionOkBeyond(selected, seen, overlays, class_) <==>
            selected[0] !in seen && Declares(overlays, selected[0], class_)
            && SelectionOkBeyond(selected[1..], seen + {selected[0]}, overlays, class_)
  {
    hide Declares;
    var rest := selected[1..];
    assert forall i :: 0 < i < |selected| ==> selected[i] == rest[i - 1];
    if SelectionOkBeyond(selected, seen, overlays, class_) {
      forall i | 0 <= i < |rest|
        ensures rest[i] !in seen + {selected[0]} && Declares(overlays, rest[i], class_)
      {
        assert selected[i + 1] !in seen && selected[0] != selected[i + 1]
               && Declares(overlays, selected[i + 1], class_);
      }
    }
    if SelectionOkBeyond(rest, seen + {selected[0]}, overlays, class_) {
      forall i, j | 0 <= i < j < |selected|
        ensures selected[i] != selected[j]
      {
        assert rest[j - 1] !in seen + {selected[0]};
      }
    }
  }

  lemma {:induction false} CheckSelectionDecides(selected: seq<Text>, seen: set<Text>, overlays: seq<Overlay>,
                                                 class_: Text)
    requires DistinctKeys(overlays, OverlayId)
    ensures CheckSelection(selected, seen, overlays, class_).None? <==>
            SelectionOkBeyond(selected, seen, overlays, class_)
  {
    if selected != [] {
      SelectionStep(selected, seen, overlays, class_);
      FindDecides(overlays, selected[0]);
      assert Declares(overlays, selected[0], class_) <==>
             Find(overlays, selected[0]).Some? && Find(overlays, selected[0]).value.class_ == class_;
      CheckSelectionDecides(selected[1..], seen + {selected[0]}, overlays, class_);
      hide SelectionOkBeyond, Declares, Find;
    }
  }

  ghost predicate ClassOk(p: Profile, c: OverlayClass, overlays: seq<Overlay>) {
    c.cardinality.Accepts(|p.Selected(c.id)|) && SelectionOk(p.Selected(c.id), overlays, c.id)
  }

  lemma {:induction false} CheckClassesDecides(p: Profile, classes: seq<OverlayClass>, overlays: seq<Overlay>)
    requires DistinctKeys(overlays, OverlayId)
    ensures CheckClasses(p, classes, overlays).None? <==> forall c :: c in classes ==> ClassOk(p, c, overlays)
  {
    if classes != [] {
      var c := classes[0];
      CheckSelectionDecides(p.Selected(c.id), {}, overlays, c.id);
      CheckClassesDecides(p, classes[1..], overlays);
      assert classes == [c] + classes[1..];
      hide CheckSelection, SelectionOk;
      assert ClassOk(p, c, overlays) <==>
             c.cardinality.Accepts(|p.Selected(c.id)|) && CheckSelection(p.Selected(c.id), {}, overlays, c.id).None?;
    }
  }

  lemma CheckProfileDecides(p: Profile, classes: seq<OverlayClass>, overlays: seq<Overlay>)
    requires DistinctKeys(overlays, OverlayId)
    ensures CheckProfile(p, classes, overlays).None? <==> ProfileOk(p, classes, overlays)
  {
    hide Listing, CheckClasses, SelectionOk, FirstUnknown;
    FirstUnknownFinds(Listing(p.selections.Keys), ClassIds(classes));
    CheckClassesDecides(p, classes, overlays);
    assert (forall c :: c in classes ==> ClassOk(p, c, overlays)) <==>
           forall c :: c in classes ==>
             CountFits(|p.Selected(c.id)|, c.cardinality) && SelectionOk(p.Selected(c.id), overlays, c.id);
  }

  lemma {:induction false} CheckProfilesDecides(profiles: seq<Profile>, classes: seq<OverlayClass>,
                                                overlays: seq<Overlay>)
    requires DistinctKeys(overlays, OverlayId)
    ensures CheckProfiles(profiles, classes, overlays).None? <==>
            forall p :: p in profiles ==> ProfileOk(p, classes, overlays)
  {
    hide ProfileOk, CheckProfile, DistinctKeys, OverlayId;
    if profiles != [] {
      CheckProfileDecides(profiles[0], classes, overlays);
      CheckProfilesDecides(profiles[1..], classes, overlays);
      HeadAndTail(profiles);
    }
  }

  lemma HeadAndTail<T>(s: seq<T>)
    requires s != []
    ensures forall x :: x in s <==> x == s[0] || x in s[1..]
  {
    assert s == [s[0]] + s[1..];
  }

  // ----- acceptance

  lemma SortedIsConsistent(schemaFamily: Text, classes: seq<OverlayClass>, overlays: seq<Overlay>,
                           profiles: seq<Profile>, variables: seq<Variable>,
                           cs: seq<OverlayClass>, os: seq<Overlay>, ps: seq<Profile>, vs: seq<Variable>)
    requires multiset(classes) == multiset(cs) && multiset(overlays) == multiset(os)
    requires multiset(profiles) == multiset(ps) && multiset(variables) == multiset(vs)
    requires Consistent(schemaFamily, classes, overlays, profiles, variables)
    ensures Consistent(schemaFamily, cs, os, ps, vs)
  {
    hide ClassId, ClassOrder, OverlayId, ProfileId, VariableName;
    DistinctPermutes(classes, cs, ClassId);
    DistinctPermutes(classes, cs, ClassOrder);
    DistinctPermutes(overlays, os, OverlayId);
    DistinctPermutes(profiles, ps, ProfileId);
    DistinctPermutes(variables, vs, VariableName);
    hide DistinctKeys;
    SameElements(classes, cs);
    SameElements(overlays, os);
    SameElements(profiles, ps);
    assert ClassIds(classes) == ClassIds(cs) && OverlayIds(overlays) == OverlayIds(os);
    hide ClassIds, OverlayIds, OverlayOk;
    forall p | p in ps
      ensures ProfileOk(p, cs, os)
    {
      assert ProfileOk(p, classes, overlays);
      ProfileOkPermutes(p, classes, overlays, cs, os);
    }
  }

  lemma ProfileOkPermutes(p: Profile, classes: seq<OverlayClass>, overlays: seq<Overlay>,
                          cs: seq<OverlayClass>, os: seq<Overlay>)
    requires forall c :: c in classes <==> c in cs
    requires forall o :: o in overlays <==> o in os
    requires ClassIds(classes) == ClassIds(cs) && ProfileOk(p, classes, overlays)
    ensures ProfileOk(p, cs, os)
  {
    hide ClassIds;
    forall c | c in cs
      ensures c.cardinality.Accepts(|p.Selected(c.id)|) && SelectionOk(p.Selected(c.id), os, c.id)
    {
      assert c in classes;
      var selected := p.Selected(c.id);
      forall i | 0 <= i < |selected|
        ensures Declares(os, selected[i], c.id)
      {
        assert Declares(overlays, selected[i], c.id);
      }
    }
  }

  lemma CheckUniqueDecides(classes: seq<OverlayClass>, overlays: seq<Overlay>, profiles: seq<Profile>,
                           variables: seq<Variable>)
    ensures CheckUnique(classes, overlays, profiles, variables).None? <==>
            DistinctKeys(classes, ClassId) && DistinctKeys(overlays, OverlayId) && DistinctKeys(profiles, ProfileId)
            && DistinctKeys(variables, VariableName)
  {
    EnsureUniqueDecides(classes, ClassId, KClass);
    EnsureUniqueDecides(overlays, OverlayId, KOverlay);
    EnsureUniqueDecides(profiles, ProfileId, KProfile);
    EnsureUniqueDecides(variables, VariableName, KVariable);
    hide DistinctKeys, EnsureUnique;
  }

  lemma CheckReferencesDecides(classes: seq<OverlayClass>, overlays: seq<Overlay>, profiles: seq<Profile>)
    requires Ordered(classes, ClassKey) && DistinctKeys(overlays, OverlayId)
    ensures CheckReferences(classes, overlays, profiles).None? <==>
            && DistinctKeys(classes, ClassOrder)
            && (forall o :: o in overlays ==> OverlayOk(o, ClassIds(classes), OverlayIds(overlays)))
            && (forall p :: p in profiles ==> ProfileOk(p, classes, overlays))
  {
    SharedOrderDecides(classes);
    CheckOverlaysDecides(overlays, ClassIds(classes), OverlayIds(overlays));
    CheckProfilesDecides(profiles, classes, overlays);
    hide DistinctKeys, FirstSharedOrder, CheckOverlays, CheckProfiles, OverlayOk, ProfileOk;
  }

  /** The aggregate is built exactly for consistent declarations, and holds them in sorted order. */
  lemma NewPackAccepts(id: Identifier, schemaFamily: Text, classes: seq<OverlayClass>, overlays: seq<Overlay>,
                       profiles: seq<Profile>, variables: seq<Variable>)
    ensures var r := NewPack(id, schemaFamily, classes, overlays, profiles, variables);
            && (r.Success? <==> Consistent(schemaFamily, classes, overlays, profiles, variables))
            && (r.Success? ==>
                  r.value == OverlayPack(id, schemaFamily, SortBy(classes, ClassKey), SortBy(overlays, OverlayId),
                                         SortBy(profiles, ProfileId), SortBy(variables, VariableName)))
  {
    hide Consistent, SortBy, CheckUnique, CheckReferences, DistinctKeys, Ordered;
    var cs, os := SortBy(classes, ClassKey), SortBy(overlays, OverlayId);
    var ps, vs := SortBy(profiles, ProfileId), SortBy(variables, VariableName);
    SortPermutes(classes, ClassKey);
    SortPermutes(overlays, OverlayId);
    SortPermutes(profiles, ProfileId);
    SortPermutes(variables, VariableName);
    SortOrders(classes, ClassKey);
    CheckUniqueDecides(classes, overlays, profiles, variables);
    if CheckUnique(classes, overlays, profiles, variables).None? {
      DistinctPermutes(overlays, os, OverlayId);
      CheckReferencesDecides(cs, os, ps);
    }
    if Consistent(schemaFamily, classes, overlays, profiles, variables) {
      ConsistentParts(schemaFamily, classes, overlays, profiles, variables);
      SortedIsConsistent(schemaFamily, classes, overlays, profiles, variables, cs, os, ps, vs);
      ConsistentParts(schemaFamily, cs, os, ps, vs);
    } else if schemaFamily != [] && CheckUnique(classes, overlays, profiles, variables).None?
              && CheckReferences(cs, os, ps).None? {
      DistinctPermutes(classes, cs, ClassId);
      DistinctPermutes(profiles, ps, ProfileId);
      DistinctPermutes(variables, vs, VariableName);
      AssembleConsistent(schemaFamily, cs, os, ps, vs);
      SortedIsConsistent(schemaFamily, cs, os, ps, vs, classes, overlays, profiles, variables);
    }
  }

  lemma ConsistentParts(schemaFamily: Text, classes: seq<OverlayClass>, overlays: seq<Overlay>,
                        profiles: seq<Profile>, variables: seq<Variable>)
    requires Consistent(schemaFamily, classes, overlays, profiles, variables)
    ensures schemaFamily != []
    ensures DistinctKeys(classes, ClassId) && DistinctKeys(overlays, OverlayId) && DistinctKeys(profiles, ProfileId)
            && DistinctKeys(variables, VariableName) && DistinctKeys(classes, ClassOrder)
    ensures forall o :: o in overlays ==> OverlayOk(o, ClassIds(classes), OverlayIds(overlays))
    ensures forall p :: p in profiles ==> ProfileOk(p, classes, overlays)
  {
    hide DistinctKeys, OverlayOk, ProfileOk;
  }

  lemma AssembleConsistent(schemaFamily: Text, classes: seq<OverlayClass>, overlays: seq<Overlay>,
                           profiles: seq<Profile>, variables: seq<Variable>)
    requires schemaFamily != []
    requires DistinctKeys(classes, ClassId) && DistinctKeys(overlays, OverlayId) && DistinctKeys(profiles, ProfileId)
             && DistinctKeys(variables, VariableName) && DistinctKeys(classes, ClassOrder)
    requires forall o :: o in overlays ==> OverlayOk(o, ClassIds(classes), OverlayIds(overlays))
    requires forall p :: p in profiles ==> ProfileOk(p, classes, overlays)
    ensures Consistent(schemaFamily, classes, overlays, profiles, variables)
  {
    hide DistinctKeys, OverlayOk, ProfileOk;
  }

  lemma ClassKeysDistinct(classes: seq<OverlayClass>)
    requires DistinctKeys(classes, ClassOrder)
    ensures DistinctKeys(classes, ClassKey)
  {
    forall i, j | 0 <= i < j < |classes|
      ensures ClassKey(classes[i]) != ClassKey(classes[j])
    {
      assert ClassOrder(classes[i]) != ClassOrder(classes[j]);
      assert ClassKey(classes[i])[0] == classes[i].order && ClassKey(classes[j])[0] == classes[j].order;
    }
  }

  lemma IdsKeepKeysApart(classes: seq<OverlayClass>)
    requires DistinctKeys(classes, ClassId)
    ensures DistinctKeys(classes, ClassKey)
  {
    forall i, j | 0 <= i < j < |classes|
      ensures ClassKey(classes[i]) != ClassKey(classes[j])
    {
      assert ClassKey(classes[i])[1..] == ClassId(classes[i]) && ClassKey(classes[j])[1..] == ClassId(classes[j]);
    }
  }

  lemma UniqueIgnoresOrder<T>(a: seq<T>, b: seq<T>, name: T -> seq<int>, kind: Kind)
    requires multiset(a) == multiset(b)
    ensures DistinctKeys(a, name) == DistinctKeys(b, name)
    ensures (EnsureUnique(a, name, kind).None? <==> DistinctKeys(a, name))
            && (EnsureUnique(b, name, kind).None? <==> DistinctKeys(a, name))
    ensures EnsureUnique(a, name, kind).Some? ==> RepeatsOf(kind, EnsureUnique(a, name, kind).value)
    ensures EnsureUnique(b, name, kind).Some? ==> RepeatsOf(kind, EnsureUnique(b, name, kind).value)
  {
    hide DistinctKeys, FirstRepeat;
    EnsureUniqueDecides(a, name, kind);
    EnsureUniqueDecides(b, name, kind);
    if DistinctKeys(a, name) {
      DistinctPermutes(a, b, name);
    } else if DistinctKeys(b, name) {
      DistinctPermutes(b, a, name);
    }
  }

  predicate RepeatsOf(kind: Kind, error: DomainError) {
    error.DuplicateIdentifier? && error.kind == kind
  }

  /** Both report a repeated identifier, in declarations of one kind. */
  predicate SameRepeats(a: Result<OverlayPack, DomainError>, b: Result<OverlayPack, DomainError>) {
    && a.Failure? && b.Failure? && a.error.DuplicateIdentifier? && b.error.DuplicateIdentifier?
    && a.error.kind == b.error.kind
  }

  /**
   Declaration order changes neither the pack nor the error, except which of several
   repeated identifiers of one kind is named.
   */
  lemma NewPackIgnoresOrder(id: Identifier, schemaFamily: Text, classes: seq<OverlayClass>, overlays: seq<Overlay>,
                            profiles: seq<Profile>, variables: seq<Variable>,
                            cs: seq<OverlayClass>, os: seq<Overlay>, ps: seq<Profile>, vs: seq<Variable>)
    requires multiset(classes) == multiset(cs) && multiset(overlays) == multiset(os)
    requires multiset(profiles) == multiset(ps) && multiset(variables) == multiset(vs)
    ensures var a := NewPack(id, schemaFamily, classes, overlays, profiles, variables);
            var b := NewPack(id, schemaFamily, cs, os, ps, vs);
            a == b || SameRepeats(a, b)
  {
    hide SortBy, DistinctKeys, EnsureUnique, CheckReferences;
    UniqueIgnoresOrder(classes, cs, ClassId, KClass);
    UniqueIgnoresOrder(overlays, os, OverlayId, KOverlay);
    UniqueIgnoresOrder(profiles, ps, ProfileId, KProfile);
    UniqueIgnoresOrder(variables, vs, VariableName, KVariable);
    if CheckUnique(classes, overlays, profiles, variables).None? {
      IdsKeepKeysApart(classes);
      SortCanonical(classes, cs, ClassKey);
      SortCanonical(overlays, os, OverlayId);
      SortCanonical(profiles, ps, ProfileId);
      SortCanonical(variables, vs, VariableName);
    }
  }

  /** A pack some call of `NewPack` handed out. */
  ghost predicate Accepted(pack: OverlayPack) {
    exists classes, overlays, profiles, variables ::
      NewPack(pack.id, pack.schemaFamily, classes, overlays, profiles, variables) == Success(pack)
  }

  /** An accepted pack is normal and consistent, and building it again from its own parts gives it back. */
  lemma AcceptedIsNormal(pack: OverlayPack)
    requires Accepted(pack)
    ensures Consistent(pack.schemaFamily, pack.classes, pack.overlays, pack.profiles, pack.variables)
    ensures StrictlyOrdered(pack.classes, ClassOrder) && StrictlyOrdered(pack.overlays, OverlayId)
    ensures NewPack(pack.id, pack.schemaFamily, pack.classes, pack.overlays, pack.profiles, pack.variables)
            == Success(pack)
  {
    var classes, overlays, profiles, variables :|
      NewPack(pack.id, pack.schemaFamily, classes, overlays, profiles, variables) == Success(pack);
    hide Consistent, NewPack, SortBy, DistinctKeys, StrictlyOrdered;
    NewPackAccepts(pack.id, pack.schemaFamily, classes, overlays, profiles, variables);
    ConsistentParts(pack.schemaFamily, classes, overlays, profiles, variables);
    ClassKeysDistinct(classes);
    SortStrict(classes, ClassKey);
    SortStrict(overlays, OverlayId);
    SortStrict(profiles, ProfileId);
    SortStrict(variables, VariableName);
    SortPermutes(classes, ClassKey);
    SortPermutes(overlays, OverlayId);
    SortPermutes(profiles, ProfileId);
    SortPermutes(variables, VariableName);
    SortedIsConsistent(pack.schemaFamily, classes, overlays, profiles, variables,
                       pack.classes, pack.overlays, pack.profiles, pack.variables);
    NewPackAccepts(pack.id, pack.schemaFamily, pack.classes, pack.overlays, pack.profiles, pack.variables);
    SortIdempotent(pack.classes, ClassKey);
    SortIdempotent(pack.overlays, OverlayId);
    SortIdempotent(pack.profiles, ProfileId);
    SortIdempotent(pack.variables, VariableName);
    ConsistentParts(pack.schemaFamily, pack.classes, pack.overlays, pack.profiles, pack.variables);
    StrictIsDistinct(pack.classes, ClassKey);
    SortedByOrder(pack.classes);
    OrderedDistinctIsStrict(pack.classes, ClassOrder);
  }

  // ----- the imperative constructor

  method FindRepeat<T>(s: seq<T>, name: T -> seq<int>) returns (repeat: Option<seq<int>>)
    ensures repeat == FirstRepeat(s, name, {})
  {
    var seen: set<seq<int>> := {};
    var i := 0;
    assert s[0..] == s;
    while i < |s|
      invariant 0 <= i <= |s| && FirstRepeat(s, name, {}) == FirstRepeat(s[i..], name, seen)
    {
      assert s[i..][1..] == s[i + 1..];
      if name(s[i]) in seen {
        return Some(name(s[i]));
      }
      seen := seen + {name(s[i])};
      i := i + 1;
    }
    return None;
  }

  method ValidateOverlays(overlays: seq<Overlay>, classIds: set<Text>, overlayIds: set<Text>)
    returns (problem: Option<DomainError>)
    ensures problem == CheckOverlays(overlays, classIds, overlayIds)
  {
    hide Listing, FirstUnknown;
    var i := 0;
    assert overlays[0..] == overlays;
    while i < |overlays|
      invariant 0 <= i <= |overlays|
      invariant CheckOverlays(overlays, classIds, overlayIds) == CheckOverlays(overlays[i..], classIds, overlayIds)
    {
      var o := overlays[i];
      assert overlays[i..][0] == o && overlays[i..][1..] == overlays[i + 1..];
      if o.class_ !in classIds {
        return Some(UnknownClass(o.id, o.class_));
      }
      var unknown := FindUnknown(Listing(o.incompatibleWith), overlayIds);
      if unknown.Some? {
        return Some(UnknownOverlayReference(unknown.value));
      }
      i := i + 1;
    }
    return None;
  }

  method FindUnknown(references: seq<Text>, known: set<Text>) returns (unknown: Option<Text>)
    ensures unknown == FirstUnknown(references, known)
  {
    var i := 0;
    assert references[0..] == references;
    while i < |references|
      invariant 0 <= i <= |references| && FirstUnknown(references, known) == FirstUnknown(references[i..], known)
    {
      assert references[i..][0] == references[i] && references[i..][1..] == references[i + 1..];
      if references[i] !in known {
        return Some(references[i]);
      }
      i := i + 1;
    }
    return None;
  }

  method ValidateSelection(selected: seq<Identifier>, overlays: seq<Overlay>, class_: Text)
    returns (problem: Option<DomainError>)
    ensures problem == CheckSelection(selected, {}, overlays, class_)
  {
    hide Find;
    var seen: set<Text> := {};
    var i := 0;
    assert selected[0..] == selected;
    while i < |selected|
      invariant 0 <= i <= |selected|
      invariant CheckSelection(selected, {}, overlays, class_) == CheckSelection(selected[i..], seen, overlays, class_)
    {
      var id := selected[i];
      assert selected[i..][0] == id && selected[i..][1..] == selected[i + 1..];
      if id in seen {
        return Some(DuplicateProfileSelection(id));
      }
      seen := seen + {id};
      var overlay := Find(overlays, id);
      if overlay.None? {
        return Some(UnknownOverlayReference(id));
      }
      if overlay.value.class_ != class_ {
        return Some(OverlayClassMismatch(overlay.value.id, class_, overlay.value.class_));
      }
      i := i + 1;
    }
    return None;
  }

  method ValidateProfile(profile: Profile, classes: seq<OverlayClass>, overlays: seq<Overlay>)
    returns (problem: Option<DomainError>)
    ensures problem == CheckProfile(profile, classes, overlays)
  {
    hide Listing, FirstUnknown, CheckSelection;
    var unknown := FindUnknown(Listing(profile.selections.Keys), ClassIds(classes));
    if unknown.Some? {
      return Some(UnknownProfileClass(profile.id, unknown.value));
    }
    var i := 0;
    assert classes[0..] == classes;
    while i < |classes|
      invariant 0 <= i <= |classes|
      invariant CheckClasses(profile, classes, overlays) == CheckClasses(profile, classes[i..], overlays)
    {
      var c := classes[i];
      assert classes[i..][0] == c && classes[i..][1..] == classes[i + 1..];
      var selected: seq<Identifier> := if c.id in profile.selections then profile.selections[c.id] else [];
      if !c.cardinality.Accepts(|selected|) {
        return Some(CardinalityViolation(profile.id, c.id, |selected|));
      }
      problem := ValidateSelection(selected, overlays, c.id);
      if problem.Some? {
        return;
      }
      i := i + 1;
    }
    return None;
  }

  /** `OverlayPack::new`, statement by statement. */
  method ConstructPack(id: Identifier, schemaFamily: Text, declaredClasses: seq<OverlayClass>,
                       declaredOverlays: seq<Overlay>, declaredProfiles: seq<Profile>, declaredVariables: seq<Variable>)
    returns (r: Result<OverlayPack, DomainError>)
    ensures r == NewPack(id, schemaFamily, declaredClasses, declaredOverlays, declaredProfiles, declaredVariables)
  {
    hide FirstRepeat, FirstSharedOrder, CheckOverlays, CheckProfile, SortBy;
    if schemaFamily == [] {
      return Failure(EmptySchemaFamily);
    }
    var repeat := FindRepeat(declaredClasses, ClassId);
    if repeat.Some? {
      return Failure(DuplicateIdentifier(KClass, repeat.value));
    }
    repeat := FindRepeat(declaredOverlays, OverlayId);
    if repeat.Some? {
      return Failure(DuplicateIdentifier(KOverlay, repeat.value));
    }
    repeat := FindRepeat(declaredProfiles, ProfileId);
    if repeat.Some? {
      return Failure(DuplicateIdentifier(KProfile, repeat.value));
    }
    repeat := FindRepeat(declaredVariables, VariableName);
    if repeat.Some? {
      return Failure(DuplicateIdentifier(KVariable, repeat.value));
    }
    var classes, overlays := SortBy(declaredClasses, ClassKey), SortBy(declaredOverlays, OverlayId);
    var profiles, variables := SortBy(declaredProfiles, ProfileId), SortBy(declaredVariables, VariableName);
    var problem := FindSharedOrder(classes);
    if problem.Some? {
      return Failure(problem.value);
    }
    problem := ValidateOverlays(overlays, ClassIds(classes), OverlayIds(overlays));
    if problem.Some? {
      return Failure(problem.value);
    }
    var i := 0;
    assert profiles[0..] == profiles;
    while i < |profiles|
      invariant 0 <= i <= |profiles|
      invariant CheckProfiles(profiles, classes, overlays) == CheckProfiles(profiles[i..], classes, overlays)
    {
      assert profiles[i..][0] == profiles[i] && profiles[i..][1..] == profiles[i + 1..];
      problem := ValidateProfile(profiles[i], classes, overlays);
      if problem.Some? {
        return Failure(problem.value);
      }
      i := i + 1;
    }
    return Success(OverlayPack(id, schemaFamily, classes, overlays, profiles, variables));
  }

  method FindSharedOrder(classes: seq<OverlayClass>) returns (problem: Option<DomainError>)
    ensures problem == FirstSharedOrder(classes)
  {
    var i := 0;
    assert classes[0..] == classes;
    while i + 1 < |classes|
      invariant 0 <= i && (i <= |classes|) && FirstSharedOrder(classes) == FirstSharedOrder(classes[i..])
    {
      assert classes[i..][0] == classes[i] && classes[i..][1] == classes[i + 1]
             && classes[i..][1..] == classes[i + 1..];
      if classes[i].order == classes[i + 1].order {
        return Some(DuplicateClassOrder(classes[i].order));
      }
      i := i + 1;
    }
    return None;
  }
}
