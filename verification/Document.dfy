/** Pack documents: what the aggregate is written as, and how it is read back. */
module Document {
  import opened Bytes
  import opened Sorting
  import opened Pack

  const SCHEMA_FAMILY := Ascii("invokrum.dev/v1")

  datatype ClassDocument = ClassDocument(id: Text, order: U32, minimum: U32, maximum: Option<U32>)

  datatype OverlayDocument = OverlayDocument(id: Text, class_: Text, source: Text, incompatibleWith: seq<Text>)

  datatype ProfileDocument = ProfileDocument(id: Text, selections: map<Text, seq<Text>>)

  datatype VariableDocument = VariableDocument(name: Text, sensitivity: Sensitivity)

  datatype PackDocument = PackDocument(schema: Text, id: Text, classes: seq<ClassDocument>,
                                       overlays: seq<OverlayDocument>, profiles: seq<ProfileDocument>,
                                       variables: seq<VariableDocument>)

  datatype SchemaError =
    | UnsupportedSchema
    | DuplicateListValue(value: Text)
    | Domain(error: DomainError)

  // ----- reading

  /** Collecting results: the values if all succeed, else the first failure. */
  function Collect<A, B, E>(s: seq<A>, parse: A -> Result<B, E>): Result<seq<B>, E> {
    if s == [] then Success([])
    else
      var first :- parse(s[0]);
      var rest :- Collect(s[1..], parse);
      Success([first] + rest)
  }

  function ParseIdentifier(value: Text): Result<Identifier, SchemaError> {
    if ValidIdentifier(value) then Success(value) else Failure(Domain(InvalidIdentifier(value)))
  }

  function ParsePath(value: Text): Result<PackPath, SchemaError> {
    if ValidPackPath(value) then Success(value) else Failure(Domain(InvalidPackRelativePath(value)))
  }

  function NewCardinality(minimum: U32, maximum: Option<U32>): Result<Bounds, SchemaError> {
    if maximum.Some? && maximum.value < minimum then Failure(Domain(InvalidCardinality(minimum, maximum)))
    else Success(Cardinality(minimum, maximum))
  }

  /** `parse_identifier_set`. */
  function ParseIdentifierSet(values: seq<Text>, seen: set<Identifier>): Result<set<Identifier>, SchemaError> {
    if values == [] then Success(seen)
    else
      var id :- ParseIdentifier(values[0]);
      if id in seen then Failure(DuplicateListValue(id)) else ParseIdentifierSet(values[1..], seen + {id})
  }

  method CollectIdentifierSet(values: seq<Text>) returns (r: Result<set<Identifier>, SchemaError>)
    ensures r == ParseIdentifierSet(values, {})
  {
    var identifiers: set<Identifier> := {};
    var i := 0;
    assert values[0..] == values;
    while i < |values|
      invariant 0 <= i <= |values|
      invariant ParseIdentifierSet(values, {}) == ParseIdentifierSet(values[i..], identifiers)
    {
      assert values[i..][0] == values[i] && values[i..][1..] == values[i + 1..];
      var identifier := ParseIdentifier(values[i]);
      if identifier.Failure? {
        return Failure(identifier.error);
      }
      if identifier.value in identifiers {
        return Failure(DuplicateListValue(identifier.value));
      }
      identifiers := identifiers + {identifier.value};
      i := i + 1;
    }
    return Success(identifiers);
  }

  function ParseClass(d: ClassDocument): Result<OverlayClass, SchemaError> {
    var id :- ParseIdentifier(d.id);
    var cardinality :- NewCardinality(d.minimum, d.maximum);
    Success(OverlayClass(id, d.order, cardinality))
  }

  function ParseOverlay(d: OverlayDocument): Result<Overlay, SchemaError> {
    var id :- ParseIdentifier(d.id);
    var class_ :- ParseIdentifier(d.class_);
    var source :- ParsePath(d.source);
    var incompatibleWith :- ParseIdentifierSet(d.incompatibleWith, {});
    Success(Overlay(id, class_, source, incompatibleWith))
  }

  /** The selections of these classes, in the order of the key listing. */
  function ParseSelections(keys: seq<Text>, selections: map<Text, seq<Text>>)
    : Result<map<Identifier, seq<Identifier>>, SchemaError>
    requires forall k: Text :: k in keys ==> k in selections
  {
    if keys == [] then Success(map[])
    else
      var class_ :- ParseIdentifier(keys[0]);
      var ids :- Collect(selections[keys[0]], ParseIdentifier);
      var rest :- ParseSelections(keys[1..], selections);
      Success(rest[class_ := ids])
  }

  function ParseProfile(d: ProfileDocument): Result<Profile, SchemaError> {
    var selections :- ParseSelections(Listing(d.selections.Keys), d.selections);
    var id :- ParseIdentifier(d.id);
    Success(Profile(id, selections))
  }

  function ParseVariable(d: VariableDocument): Result<Variable, SchemaError> {
    var name :- ParseIdentifier(d.name);
    Success(Variable(name, d.sensitivity))
  }

  /** `TryFrom<PackDocument> for OverlayPack`. */
  function FromDocument(d: PackDocument): Result<OverlayPack, SchemaError> {
    if d.schema != SCHEMA_FAMILY then Failure(UnsupportedSchema)
    else
      var classes :- Collect(d.classes, ParseClass);
      var overlays :- Collect(d.overlays, ParseOverlay);
      var profiles :- Collect(d.profiles, ParseProfile);
      var variables :- Collect(d.variables, ParseVariable);
      var id :- ParseIdentifier(d.id);
      match NewPack(id, d.schema, classes, overlays, profiles, variables)
      case Success(pack) => Success(pack)
      case Failure(error) => Failure(Domain(error))
  }

  // ----- writing

  function Each<A, B>(s: seq<A>, f: A -> B): (r: seq<B>)
    ensures |r| == |s|
    ensures forall i :: 0 <= i < |s| ==> r[i] == f(s[i])
  {
    seq(|s|, i requires 0 <= i < |s| => f(s[i]))
  }

  function WriteClass(c: OverlayClass): ClassDocument {
    ClassDocument(c.id, c.order, c.cardinality.minimum, c.cardinality.maximum)
  }

  /** The set is written in increasing order. */
  function WriteOverlay(o: Overlay): OverlayDocument {
    OverlayDocument(o.id, o.class_, o.source, Listing(o.incompatibleWith))
  }

  function WriteProfile(p: Profile): ProfileDocument {
    ProfileDocument(p.id, map k | k in p.selections :: p.selections[k])
  }

  function WriteVariable(v: Variable): VariableDocument {
    VariableDocument(v.name, v.sensitivity)
  }

  /** `From<&OverlayPack> for PackDocument`. */
  function ToDocument(pack: OverlayPack): PackDocument {
    PackDocument(pack.schemaFamily, pack.id, Each(pack.classes, WriteClass), Each(pack.overlays, WriteOverlay),
                 Each(pack.profiles, WriteProfile), Each(pack.variables, WriteVariable))
  }

  // ----- round trip

  lemma {:induction false} CollectInverts<A, B, E>(s: seq<A>, write: A -> B, parse: B -> Result<A, E>)
    requires forall i :: 0 <= i < |s| ==> parse(write(s[i])) == Success(s[i])
    ensures Collect(Each(s, write), parse) == Success(s)
  {
    if s != [] {
      assert Each(s, write)[1..] == Each(s[1..], write);
      assert s == [s[0]] + s[1..];
      CollectInverts(s[1..], write, parse);
    }
  }

  lemma {:induction false} CollectIdentifiers(ids: seq<Text>)
    requires forall i :: 0 <= i < |ids| ==> ValidIdentifier(ids[i])
    ensures Collect(ids, ParseIdentifier) == Success(ids)
  {
    if ids != [] {
      CollectIdentifiers(ids[1..]);
      assert ids == [ids[0]] + ids[1..];
    }
  }

  ghost predicate DistinctTexts(values: seq<Text>) {
    forall i, j :: 0 <= i < j < |values| ==> values[i] != values[j]
  }

  ghost predicate FreshIdentifiers(values: seq<Text>, seen: set<Identifier>) {
    forall v: Text :: v in values ==> ValidIdentifier(v) && v !in seen
  }

  lemma {:induction false} IdentifierSetGrows(values: seq<Text>, seen: set<Identifier>)
    ensures var r := ParseIdentifierSet(values, seen);
            && (r.Success? <==> FreshIdentifiers(values, seen) && DistinctTexts(values))
            && (r.Success? ==> forall v: Text :: v in r.value <==> v in seen || v in values)
  {
    if values != [] {
      assert values == [values[0]] + values[1..];
      if ValidIdentifier(values[0]) && values[0] !in seen {
        IdentifierSetGrows(values[1..], seen + {values[0]});
        HeadIsDistinct(values);
        assert FreshIdentifiers(values, seen) && DistinctTexts(values)
          <==> FreshIdentifiers(values[1..], seen + {values[0]}) && DistinctTexts(values[1..]);
      }
    }
  }

  lemma HeadIsDistinct(values: seq<Text>)
    requires values != []
    ensures DistinctTexts(values) <==> values[0] !in values[1..] && DistinctTexts(values[1..])
  {
    assert DistinctTexts(values) ==> forall i, j :: 0 <= i < j < |values[1..]| ==> values[1..][i] != values[1..][j];
  }

  /** A list of names is read exactly if all are identifiers and none repeats, and then as the set of them. */
  lemma IdentifierSetDecides(values: seq<Text>)
    ensures ParseIdentifierSet(values, {}).Success? <==>
            (forall v :: v in values ==> ValidIdentifier(v)) && DistinctTexts(values)
    ensures ParseIdentifierSet(values, {}).Success? ==>
              ParseIdentifierSet(values, {}).value == set v | v in values
  {
    IdentifierSetGrows(values, {});
    hide ParseIdentifierSet, DistinctTexts;
    var r := ParseIdentifierSet(values, {});
    if r.Success? {
      forall v: Text
        ensures v in r.value <==> v in set v: Text | v in values
      {
      }
    }
  }

  /** Position `i` is the first that spoils the list: no identifier, or one that came before. */
  ghost predicate SpoilsAt(values: seq<Text>, i: nat, error: SchemaError) {
    && i < |values|
    && (forall v: Text :: v in values[..i] ==> ValidIdentifier(v)) && DistinctTexts(values[..i])
    && (if ValidIdentifier(values[i]) then values[i] in values[..i] && error == DuplicateListValue(values[i])
        else error == Domain(InvalidIdentifier(values[i])))
  }

  /** A refused list is reported at its first bad value. */
  lemma {:induction false} IdentifierSetErrors(values: seq<Text>, i: nat, seen: set<Identifier>)
    requires i <= |values| && DistinctTexts(values[..i]) && forall v: Text :: v in values[..i] <==> v in seen
    requires ParseIdentifierSet(values[i..], seen).Failure?
    ensures exists k :: i <= k && SpoilsAt(values, k, ParseIdentifierSet(values[i..], seen).error)
    decreases |values| - i
  {
    assert values[i..] != [] && values[i..][0] == values[i] && values[i..][1..] == values[i + 1..];
    var error := ParseIdentifierSet(values[i..], seen).error;
    if ValidIdentifier(values[i]) && values[i] !in seen {
      assert values[..i + 1] == values[..i] + [values[i]];
      IdentifierSetErrors(values, i + 1, seen + {values[i]});
    } else {
      assert SpoilsAt(values, i, error);
    }
  }

  lemma IncreasingAreDistinct(values: seq<Text>)
    requires IncreasingTexts(values)
    ensures DistinctTexts(values)
  {
    forall i, j | 0 <= i < j < |values|
      ensures values[i] != values[j]
    {
      BeforeAsymmetric(values[i], values[j]);
    }
  }

  lemma OverlayInverts(o: Overlay)
    ensures ParseOverlay(WriteOverlay(o)) == Success(o)
  {
    var listing := Listing(o.incompatibleWith);
    IncreasingAreDistinct(listing);
    IdentifierSetDecides(listing);
    hide ParseIdentifierSet, DistinctTexts;
    assert ParseIdentifierSet(listing, {}).value == o.incompatibleWith;
  }

  lemma {:induction false} SelectionsInvert(keys: seq<Text>, selections: map<Text, seq<Text>>,
                                            expected: map<Identifier, seq<Identifier>>)
    requires forall k: Text :: k in keys ==>
               ValidIdentifier(k) && k in expected && k in selections && selections[k] == expected[k]
    ensures var r := ParseSelections(keys, selections);
            && r.Success?
            && (forall k: Text :: k in r.value <==> k in keys)
            && (forall k: Text :: k in keys ==> r.value[k] == expected[k])
  {
    if keys != [] {
      CollectIdentifiers(selections[keys[0]]);
      SelectionsInvert(keys[1..], selections, expected);
      assert keys == [keys[0]] + keys[1..];
    }
  }

  lemma ProfileInverts(p: Profile)
    ensures ParseProfile(WriteProfile(p)) == Success(p)
  {
    var d := WriteProfile(p);
    SelectionsInvert(Listing(d.selections.Keys), d.selections, p.selections);
    assert ParseSelections(Listing(d.selections.Keys), d.selections).value == p.selections;
  }

  /** Reading back what an accepted v1 pack is written as gives the same pack. */
  lemma DocumentRoundTrip(pack: OverlayPack)
    requires Accepted(pack) && pack.schemaFamily == SCHEMA_FAMILY
    ensures FromDocument(ToDocument(pack)) == Success(pack)
  {
    hide NewPack, Consistent, StrictlyOrdered, ParseOverlay, WriteOverlay, ParseProfile, WriteProfile;
    forall i | 0 <= i < |pack.overlays|
      ensures ParseOverlay(WriteOverlay(pack.overlays[i])) == Success(pack.overlays[i])
    {
      OverlayInverts(pack.overlays[i]);
    }
    forall i | 0 <= i < |pack.profiles|
      ensures ParseProfile(WriteProfile(pack.profiles[i])) == Success(pack.profiles[i])
    {
      ProfileInverts(pack.profiles[i]);
    }
    CollectInverts(pack.classes, WriteClass, ParseClass);
    CollectInverts(pack.overlays, WriteOverlay, ParseOverlay);
    CollectInverts(pack.profiles, WriteProfile, ParseProfile);
    CollectInverts(pack.variables, WriteVariable, ParseVariable);
    hide Collect, Each;
    AcceptedIsNormal(pack);
  }

  // ----- order of declarations

  /** Reading up to a permutation, and up to whatever `key` does not show. */
  lemma {:induction false} CollectPermutes<A, B, K, E>(a: seq<A>, b: seq<A>, key: A -> K, parse: A -> Result<B, E>)
    requires multiset(Each(a, key)) == multiset(Each(b, key)) && Collect(a, parse).Success?
    requires forall x, y :: x in a && y in b && key(x) == key(y) && parse(x).Success? ==> parse(y) == parse(x)
    ensures Collect(b, parse).Success? && multiset(Collect(b, parse).value) == multiset(Collect(a, parse).value)
  {
    SameLength(Each(a, key), Each(b, key));
    if a != [] {
      var k := MatchHead(Each(a, key), Each(b, key));
      var rest := b[..k] + b[k + 1..];
      assert Each(a[1..], key) == Each(a, key)[1..];
      assert Each(rest, key) == Each(b, key)[..k] + Each(b, key)[k + 1..];
      CollectPermutes(a[1..], rest, key, parse);
      CollectInserts(b[..k], b[k + 1..], b[k], parse);
      assert b == b[..k] + [b[k]] + b[k + 1..];
      var first, tail := parse(a[0]).value, Collect(a[1..], parse).value;
      assert Collect(a, parse).value == [first] + tail;
    }
  }

  function Itself<A>(x: A): A { x }

  lemma CollectReorders<A, B, E>(a: seq<A>, b: seq<A>, parse: A -> Result<B, E>)
    requires multiset(a) == multiset(b) && Collect(a, parse).Success?
    ensures Collect(b, parse).Success? && multiset(Collect(b, parse).value) == multiset(Collect(a, parse).value)
  {
    assert Each(a, Itself) == a && Each(b, Itself) == b;
    CollectPermutes(a, b, Itself, parse);
  }

  /** Adding one more document adds its value, wherever it stands. */
  lemma {:induction false} CollectInserts<A, B, E>(a: seq<A>, b: seq<A>, x: A, parse: A -> Result<B, E>)
    requires Collect(a + b, parse).Success? && parse(x).Success?
    ensures Collect(a + [x] + b, parse).Success?
    ensures multiset(Collect(a + [x] + b, parse).value)
            == multiset(Collect(a + b, parse).value) + multiset{parse(x).value}
  {
    if a == [] {
      assert a + b == b && a + [x] + b == [x] + b && ([x] + b)[1..] == b;
      var rest := Collect(b, parse).value;
      assert Collect([x] + b, parse).value == [parse(x).value] + rest;
    } else {
      assert (a + b)[0] == a[0] && (a + b)[1..] == a[1..] + b;
      assert (a + [x] + b)[0] == a[0] && (a + [x] + b)[1..] == a[1..] + [x] + b;
      CollectInserts(a[1..], b, x, parse);
      var y, rest := parse(a[0]).value, Collect(a[1..] + b, parse).value;
      var more := Collect(a[1..] + [x] + b, parse).value;
      assert Collect(a + b, parse).value == [y] + rest && Collect(a + [x] + b, parse).value == [y] + more;
    }
  }

  datatype Unordered = Unordered(id: Text, class_: Text, source: Text, incompatibleWith: multiset<Text>)

  /** An overlay's declaration without the order of its incompatibilities. */
  function Forget(d: OverlayDocument): Unordered {
    Unordered(d.id, d.class_, d.source, multiset(d.incompatibleWith))
  }

  lemma IncompatibilityOrderIsIrrelevant(d: OverlayDocument, e: OverlayDocument)
    requires Forget(d) == Forget(e) && ParseOverlay(d).Success?
    ensures ParseOverlay(e) == ParseOverlay(d)
  {
    var a, b := d.incompatibleWith, e.incompatibleWith;
    IdentifierSetDecides(a);
    IdentifierSetDecides(b);
    PermutedIsDistinct(a, b);
    hide ParseIdentifierSet, DistinctTexts;
    forall v
      ensures v in a <==> v in b
    {
      assert v in multiset(a) <==> v in multiset(b);
    }
    assert (set v | v in a) == (set v | v in b);
  }

  lemma PermutedIsDistinct(a: seq<Text>, b: seq<Text>)
    requires multiset(a) == multiset(b) && DistinctTexts(a)
    ensures DistinctTexts(b)
  {
    forall i, j | 0 <= i < j < |b|
      ensures b[i] != b[j]
    {
      DistinctCountsOnce(a, b[i]);
      assert b == b[..j] + b[j..] && b[i] in b[..j] && b[j] in b[j..];
    }
  }

  lemma {:induction false} DistinctCountsOnce(a: seq<Text>, v: Text)
    requires DistinctTexts(a)
    ensures multiset(a)[v] <= 1
  {
    if a != [] {
      HeadIsDistinct(a);
      DistinctCountsOnce(a[1..], v);
      assert a == [a[0]] + a[1..];
    }
  }

  /**
   Two documents that differ only in the order of their declarations, and of
   the incompatibilities inside an overlay's, are read alike.
   */
  lemma DocumentOrderIsIrrelevant(d: PackDocument, e: PackDocument)
    requires d.schema == e.schema && d.id == e.id
    requires multiset(d.classes) == multiset(e.classes)
    requires multiset(Each(d.overlays, Forget)) == multiset(Each(e.overlays, Forget))
    requires multiset(d.profiles) == multiset(e.profiles) && multiset(d.variables) == multiset(e.variables)
    requires FromDocument(d).Success?
    ensures FromDocument(e) == FromDocument(d)
  {
    hide NewPack, Collect, ParseClass, ParseOverlay, ParseProfile, ParseVariable, Forget;
    CollectReorders(d.classes, e.classes, ParseClass);
    forall x, y | Forget(x) == Forget(y) && ParseOverlay(x).Success?
      ensures ParseOverlay(y) == ParseOverlay(x)
    {
      IncompatibilityOrderIsIrrelevant(x, y);
    }
    CollectPermutes(d.overlays, e.overlays, Forget, ParseOverlay);
    CollectReorders(d.profiles, e.profiles, ParseProfile);
    CollectReorders(d.variables, e.variables, ParseVariable);
    NewPackIgnoresOrder(d.id, d.schema, Collect(d.classes, ParseClass).value, Collect(d.overlays, ParseOverlay).value,
                        Collect(d.profiles, ParseProfile).value, Collect(d.variables, ParseVariable).value,
                        Collect(e.classes, ParseClass).value, Collect(e.overlays, ParseOverlay).value,
                        Collect(e.profiles, ParseProfile).value, Collect(e.variables, ParseVariable).value);
  }

  // ----- which documents are read, and as what

  ghost predicate ClassSays(d: ClassDocument, c: OverlayClass) {
    c.id == d.id && c.order == d.order && c.cardinality == Cardinality(d.minimum, d.maximum)
  }

  ghost predicate OverlaySays(d: OverlayDocument, o: Overlay) {
    && o.id == d.id && o.class_ == d.class_ && o.source == d.source
    && DistinctTexts(d.incompatibleWith) && forall v: Text :: v in o.incompatibleWith <==> v in d.incompatibleWith
  }

  ghost predicate ProfileSays(d: ProfileDocument, p: Profile) {
    && p.id == d.id && (forall k: Text :: k in p.selections <==> k in d.selections)
    && forall k: Text :: k in d.selections ==> p.selections[k] == d.selections[k]
  }

  ghost predicate VariableSays(d: VariableDocument, v: Variable) {
    v.name == d.name && v.sensitivity == d.sensitivity
  }

  ghost predicate AllSay<A(!new), B(!new)>(ds: seq<A>, values: seq<B>, says: (A, B) -> bool) {
    |values| == |ds| && forall i :: 0 <= i < |ds| ==> says(ds[i], values[i])
  }

  lemma {:induction false} CollectDecides<A(!new), B(!new), E(!new)>(ds: seq<A>, values: seq<B>, says: (A, B) -> bool,
                                                                     parse: A -> Result<B, E>)
    requires forall d, v :: d in ds ==> (parse(d) == Success(v) <==> says(d, v))
    ensures Collect(ds, parse) == Success(values) <==> AllSay(ds, values, says)
  {
    if ds != [] && values != [] {
      CollectDecides(ds[1..], values[1..], says, parse);
      assert values == [values[0]] + values[1..] && ds[0] in ds;
      assert AllSay(ds, values, says) <==> says(ds[0], values[0]) && AllSay(ds[1..], values[1..], says) by {
        assert forall i :: 0 < i < |ds| ==> ds[i] == ds[1..][i - 1];
        assert forall i :: 0 < i < |values| ==> values[i] == values[1..][i - 1];
        assert forall i :: 0 <= i < |ds[1..]| ==> ds[1..][i] == ds[i + 1];
        assert forall i :: 0 <= i < |values[1..]| ==> values[1..][i] == values[i + 1];
      }
    }
  }

  lemma ClassDecides(d: ClassDocument, c: OverlayClass)
    ensures ParseClass(d) == Success(c) <==> ClassSays(d, c)
  {
    hide ValidIdentifier;
  }

  lemma OverlayDecides(d: OverlayDocument, o: Overlay)
    ensures ParseOverlay(d) == Success(o) <==> OverlaySays(d, o)
  {
    hide ValidIdentifier, ValidPackPath, DistinctTexts;
    IdentifierSetDecides(d.incompatibleWith);
    var r := ParseIdentifierSet(d.incompatibleWith, {});
    hide ParseIdentifierSet;
    if OverlaySays(d, o) {
      forall v | v in d.incompatibleWith
        ensures ValidIdentifier(v)
      {
        assert v in o.incompatibleWith;
      }
      assert r.value == o.incompatibleWith;
    }
  }

  /** What an overlay that cannot be read is reported as: the first of its fields that is wrong. */
  lemma OverlayErrors(d: OverlayDocument)
    ensures var r := ParseOverlay(d);
            && (!ValidIdentifier(d.id) ==> r == Failure(Domain(InvalidIdentifier(d.id))))
            && (ValidIdentifier(d.id) && !ValidIdentifier(d.class_) ==>
                  r == Failure(Domain(InvalidIdentifier(d.class_))))
            && (ValidIdentifier(d.id) && ValidIdentifier(d.class_) && !ValidPackPath(d.source) ==>
                  r == Failure(Domain(InvalidPackRelativePath(d.source))))
  {
    hide ValidIdentifier, ValidPackPath;
  }

  lemma {:induction false} IdentifiersDecide(ids: seq<Text>)
    ensures Collect(ids, ParseIdentifier).Success? <==> forall i :: 0 <= i < |ids| ==> ValidIdentifier(ids[i])
    ensures Collect(ids, ParseIdentifier).Success? ==> Collect(ids, ParseIdentifier) == Success(ids)
  {
    hide ValidIdentifier;
    if ids != [] {
      IdentifiersDecide(ids[1..]);
      assert ids == [ids[0]] + ids[1..];
    }
  }

  lemma {:induction false} SelectionsDecide(keys: seq<Text>, selections: map<Text, seq<Text>>)
    requires forall k: Text :: k in keys ==> k in selections
    ensures var r := ParseSelections(keys, selections);
            && (r.Success? <==> forall k: Text :: k in keys ==>
                  ValidIdentifier(k) && forall i :: 0 <= i < |selections[k]| ==> ValidIdentifier(selections[k][i]))
            && (r.Success? ==> (forall k: Text :: k in r.value <==> k in keys)
                               && forall k: Text :: k in keys ==> r.value[k] == selections[k])
  {
    hide ValidIdentifier;
    if keys != [] {
      IdentifiersDecide(selections[keys[0]]);
      SelectionsDecide(keys[1..], selections);
      assert keys == [keys[0]] + keys[1..];
    }
  }

  lemma ProfileDecides(d: ProfileDocument, p: Profile)
    ensures ParseProfile(d) == Success(p) <==> ProfileSays(d, p)
  {
    hide ValidIdentifier, ParseSelections;
    var keys := Listing(d.selections.Keys);
    SelectionsDecide(keys, d.selections);
    var r := ParseSelections(keys, d.selections);
    if ProfileSays(d, p) {
      forall k: Text | k in keys
        ensures ValidIdentifier(k) && forall i :: 0 <= i < |d.selections[k]| ==> ValidIdentifier(d.selections[k][i])
      {
        assert k in p.selections && p.selections[k] == d.selections[k];
      }
      assert r.value == p.selections;
    }
  }

  lemma VariableDecides(d: VariableDocument, v: Variable)
    ensures ParseVariable(d) == Success(v) <==> VariableSays(d, v)
  {
    hide ValidIdentifier;
  }

  /** The declarations of a document, one for one, as a pack's parts. */
  ghost predicate Declares(d: PackDocument, classes: seq<OverlayClass>, overlays: seq<Overlay>, profiles: seq<Profile>,
                           variables: seq<Variable>)
  {
    && AllSay(d.classes, classes, ClassSays) && AllSay(d.overlays, overlays, OverlaySays)
    && AllSay(d.profiles, profiles, ProfileSays) && AllSay(d.variables, variables, VariableSays)
  }

  lemma {:induction false} CollectNeverFails<A(!new), B(!new), E(!new)>(ds: seq<A>, parse: A -> Result<B, E>, error: E)
    requires forall d :: d in ds ==> parse(d) != Failure(error)
    ensures Collect(ds, parse) != Failure(error)
  {
    if ds != [] {
      assert ds[0] in ds;
      CollectNeverFails(ds[1..], parse, error);
    }
  }

  lemma {:induction false} SetIsSupported(values: seq<Text>, seen: set<Identifier>)
    ensures ParseIdentifierSet(values, seen) != Failure(UnsupportedSchema)
  {
    hide ValidIdentifier;
    if values != [] && ValidIdentifier(values[0]) && values[0] !in seen {
      SetIsSupported(values[1..], seen + {values[0]});
    }
  }

  lemma {:induction false} SelectionsAreSupported(keys: seq<Text>, selections: map<Text, seq<Text>>)
    requires forall k: Text :: k in keys ==> k in selections
    ensures ParseSelections(keys, selections) != Failure(UnsupportedSchema)
  {
    hide ValidIdentifier;
    if keys != [] {
      CollectNeverFails(selections[keys[0]], ParseIdentifier, UnsupportedSchema);
      SelectionsAreSupported(keys[1..], selections);
    }
  }

  lemma PartsAreSupported(d: PackDocument)
    ensures Collect(d.classes, ParseClass) != Failure(UnsupportedSchema)
    ensures Collect(d.overlays, ParseOverlay) != Failure(UnsupportedSchema)
    ensures Collect(d.profiles, ParseProfile) != Failure(UnsupportedSchema)
    ensures Collect(d.variables, ParseVariable) != Failure(UnsupportedSchema)
  {
    hide Collect, ParseIdentifierSet, ParseSelections, ValidIdentifier, ValidPackPath;
    forall x
      ensures ParseOverlay(x) != Failure(UnsupportedSchema)
    {
      SetIsSupported(x.incompatibleWith, {});
    }
    forall x
      ensures ParseProfile(x) != Failure(UnsupportedSchema)
    {
      SelectionsAreSupported(Listing(x.selections.Keys), x.selections);
    }
    CollectNeverFails(d.classes, ParseClass, UnsupportedSchema);
    CollectNeverFails(d.overlays, ParseOverlay, UnsupportedSchema);
    CollectNeverFails(d.profiles, ParseProfile, UnsupportedSchema);
    CollectNeverFails(d.variables, ParseVariable, UnsupportedSchema);
  }

  /**
   A document is read exactly if it is of the v1 family, its identifier is one,
   and its declarations say parts that make a pack; and as that pack.
   */
  lemma DocumentDecides(d: PackDocument, pack: OverlayPack)
    ensures FromDocument(d) == Success(pack) <==>
            && d.schema == Ascii("invokrum.dev/v1") && ValidIdentifier(d.id)
            && exists classes, overlays, profiles, variables ::
                 Declares(d, classes, overlays, profiles, variables)
                 && NewPack(d.id, d.schema, classes, overlays, profiles, variables) == Success(pack)
    ensures FromDocument(d) == Failure(UnsupportedSchema) <==> d.schema != Ascii("invokrum.dev/v1")
  {
    hide NewPack, Collect, ParseClass, ParseOverlay, ParseProfile, ParseVariable, Declares, ValidIdentifier;
    PartsAreSupported(d);
    if FromDocument(d) == Success(pack) {
      PartsAreDeclared(d, Collect(d.classes, ParseClass).value, Collect(d.overlays, ParseOverlay).value,
                       Collect(d.profiles, ParseProfile).value, Collect(d.variables, ParseVariable).value);
    }
    if ValidIdentifier(d.id) && exists classes, overlays, profiles, variables ::
                                  Declares(d, classes, overlays, profiles, variables)
                                  && NewPack(d.id, d.schema, classes, overlays, profiles, variables) == Success(pack)
    {
      var classes, overlays, profiles, variables :|
        Declares(d, classes, overlays, profiles, variables)
        && NewPack(d.id, d.schema, classes, overlays, profiles, variables) == Success(pack);
      PartsAreDeclared(d, classes, overlays, profiles, variables);
    }
  }

  lemma PartsAreDeclared(d: PackDocument, classes: seq<OverlayClass>, overlays: seq<Overlay>, profiles: seq<Profile>,
                         variables: seq<Variable>)
    ensures Declares(d, classes, overlays, profiles, variables) <==>
            && Collect(d.classes, ParseClass) == Success(classes)
            && Collect(d.overlays, ParseOverlay) == Success(overlays)
            && Collect(d.profiles, ParseProfile) == Success(profiles)
            && Collect(d.variables, ParseVariable) == Success(variables)
  {
    hide Collect, ParseClass, ParseOverlay, ParseProfile, ParseVariable, AllSay, ClassSays, OverlaySays, ProfileSays,
         VariableSays;
    forall x, y
      ensures ParseClass(x) == Success(y) <==> ClassSays(x, y)
    {
      ClassDecides(x, y);
    }
    forall x, y
      ensures ParseOverlay(x) == Success(y) <==> OverlaySays(x, y)
    {
      OverlayDecides(x, y);
    }
    forall x, y
      ensures ParseProfile(x) == Success(y) <==> ProfileSays(x, y)
    {
      ProfileDecides(x, y);
    }
    forall x, y
      ensures ParseVariable(x) == Success(y) <==> VariableSays(x, y)
    {
      VariableDecides(x, y);
    }
    CollectDecides(d.classes, classes, ClassSays, ParseClass);
    CollectDecides(d.overlays, overlays, OverlaySays, ParseOverlay);
    CollectDecides(d.profiles, profiles, ProfileSays, ParseProfile);
    CollectDecides(d.variables, variables, VariableSays, ParseVariable);
  }
}
