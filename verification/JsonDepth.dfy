/**
 Two measures of the same nesting: the recursive strict walker over a value
 tree, and the byte scanner that never parses.
 */
module JsonDepth {
  import opened Bytes

  const USIZE_MAX: nat := U64_MAX

  const QUOTE: Byte := 34
  const COMMA: Byte := 44
  const COLON: Byte := 58
  const OPEN_BRACKET: Byte := 91
  const BACKSLASH: Byte := 92
  const CLOSE_BRACKET: Byte := 93
  const OPEN_BRACE: Byte := 123
  const CLOSE_BRACE: Byte := 125

  /** "<<" */
  const MERGE_KEY: Text := [60, 60]

  // ----- values

  datatype Entry = Entry(key: Text, value: Json)

  datatype Json =
    | Scalar
    | Sequence(items: seq<Json>)
    | Mapping(entries: seq<Entry>)

  function Max(a: nat, b: nat): nat {
    if a < b then b else a
  }

  /** How many containers enclose the innermost one, itself included. */
  function Depth(j: Json): nat {
    match j
    case Scalar => 0
    case Sequence(items) => 1 + ItemsDepth(items)
    case Mapping(entries) => 1 + EntriesDepth(entries)
  }

  function ItemsDepth(items: seq<Json>): nat {
    if items == [] then 0 else Max(Depth(items[0]), ItemsDepth(items[1..]))
  }

  function EntriesDepth(entries: seq<Entry>): nat {
    if entries == [] then 0 else Max(Depth(entries[0].value), EntriesDepth(entries[1..]))
  }

  /** No mapping at any depth repeats a key; with `merge`, none uses the merge key. */
  ghost predicate KeysFit(j: Json, merge: bool) {
    match j
    case Scalar => true
    case Sequence(items) => forall i :: 0 <= i < |items| ==> KeysFit(items[i], merge)
    case Mapping(entries) =>
      && (forall i, k :: 0 <= i < k < |entries| ==> entries[i].key != entries[k].key)
      && (forall i :: 0 <= i < |entries| ==>
            (merge ==> entries[i].key != MERGE_KEY) && KeysFit(entries[i].value, merge))
  }

  // ----- the strict walker

  datatype WalkError = NestingTooDeep | DuplicateKey | MergeKeyUsed

  /** `enter_container`. */
  function Enter(depth: nat, maximum: nat): Result<nat, WalkError> {
    if depth >= USIZE_MAX || depth + 1 > maximum then Failure(NestingTooDeep) else Success(depth + 1)
  }

  function Walk(j: Json, depth: nat, maximum: nat, merge: bool): Option<WalkError> {
    match j
    case Scalar => None
    case Sequence(items) =>
      var child := Enter(depth, maximum);
      if child.Failure? then Some(child.error) else WalkItems(items, child.value, maximum, merge)
    case Mapping(entries) =>
      var child := Enter(depth, maximum);
      if child.Failure? then Some(child.error) else WalkEntries(entries, {}, child.value, maximum, merge)
  }

  function WalkItems(items: seq<Json>, depth: nat, maximum: nat, merge: bool): Option<WalkError> {
    if items == [] then None
    else
      var first := Walk(items[0], depth, maximum, merge);
      if first.Some? then first else WalkItems(items[1..], depth, maximum, merge)
  }

  function WalkEntries(entries: seq<Entry>, seen: set<Text>, depth: nat, maximum: nat, merge: bool): Option<WalkError> {
    if entries == [] then None
    else
      var e := entries[0];
      if merge && e.key == MERGE_KEY then Some(MergeKeyUsed)
      else if e.key in seen then Some(DuplicateKey)
      else
        var first := Walk(e.value, depth, maximum, merge);
        if first.Some? then first else WalkEntries(entries[1..], seen + {e.key}, depth, maximum, merge)
  }

  /** `visit_seq` and `visit_map`, element by element. */
  method WalkValue(j: Json, depth: nat, maximum: nat, merge: bool) returns (error: Option<WalkError>)
    ensures error == Walk(j, depth, maximum, merge)
    decreases j
  {
    match j
    case Scalar => return None;
    case Sequence(items) =>
      if depth >= USIZE_MAX || depth + 1 > maximum {
        return Some(NestingTooDeep);
      }
      var child := depth + 1;
      var i := 0;
      assert items[0..] == items;
      while i < |items|
        invariant 0 <= i <= |items|
        invariant Walk(j, depth, maximum, merge) == WalkItems(items[i..], child, maximum, merge)
      {
        assert items[i..][0] == items[i] && items[i..][1..] == items[i + 1..];
        error := WalkValue(items[i], child, maximum, merge);
        if error.Some? {
          return;
        }
        i := i + 1;
      }
      return None;
    case Mapping(entries) =>
      if depth >= USIZE_MAX || depth + 1 > maximum {
        return Some(NestingTooDeep);
      }
      var child := depth + 1;
      var keys: set<Text> := {};
      var i := 0;
      assert entries[0..] == entries;
      while i < |entries|
        invariant 0 <= i <= |entries|
        invariant Walk(j, depth, maximum, merge) == WalkEntries(entries[i..], keys, child, maximum, merge)
      {
        assert entries[i..][0] == entries[i] && entries[i..][1..] == entries[i + 1..];
        var key := entries[i].key;
        if merge && key == MERGE_KEY {
          return Some(MergeKeyUsed);
        }
        if key in keys {
          return Some(DuplicateKey);
        }
        keys := keys + {key};
        error := WalkValue(entries[i].value, child, maximum, merge);
        if error.Some? {
          return;
        }
        i := i + 1;
      }
      return None;
  }

  // ----- what the walker accepts

  /** Containers below a position already `depth` deep stay within the limit. */
  predicate Fits(inner: nat, depth: nat, maximum: nat) {
    inner == 0 || depth + inner <= maximum
  }

  lemma {:induction false} WalkAccepts(j: Json, depth: nat, maximum: nat, merge: bool)
    requires maximum <= USIZE_MAX
    ensures Walk(j, depth, maximum, merge).None? <==> Fits(Depth(j), depth, maximum) && KeysFit(j, merge)
    decreases j
  {
    match j
    case Scalar =>
    case Sequence(items) =>
      WalkItemsAccepts(items, depth + 1, maximum, merge);
    case Mapping(entries) =>
      WalkEntriesAccepts(entries, {}, depth + 1, maximum, merge);
  }

  lemma {:induction false} WalkItemsAccepts(items: seq<Json>, depth: nat, maximum: nat, merge: bool)
    requires maximum <= USIZE_MAX
    ensures WalkItems(items, depth, maximum, merge).None? <==>
            Fits(ItemsDepth(items), depth, maximum) && forall i :: 0 <= i < |items| ==> KeysFit(items[i], merge)
    decreases items
  {
    if items != [] {
      WalkAccepts(items[0], depth, maximum, merge);
      WalkItemsAccepts(items[1..], depth, maximum, merge);
      assert forall i :: 0 < i < |items| ==> items[i] == items[1..][i - 1];
    }
  }

  ghost predicate EntriesFit(entries: seq<Entry>, seen: set<Text>, merge: bool) {
    && (forall i, k :: 0 <= i < k < |entries| ==> entries[i].key != entries[k].key)
    && (forall i :: 0 <= i < |entries| ==> entries[i].key !in seen)
    && (forall i :: 0 <= i < |entries| ==>
          (merge ==> entries[i].key != MERGE_KEY) && KeysFit(entries[i].value, merge))
  }

  lemma EntriesFitStep(entries: seq<Entry>, seen: set<Text>, merge: bool)
    requires entries != []
    ensures EntriesFit(entries, seen, merge) <==>
            && entries[0].key !in seen && (merge ==> entries[0].key != MERGE_KEY) && KeysFit(entries[0].value, merge)
            && EntriesFit(entries[1..], seen + {entries[0].key}, merge)
  {
    var rest := entries[1..];
    assert forall i :: 0 < i < |entries| ==> entries[i] == rest[i - 1];
    assert forall i :: 0 <= i < |rest| ==> rest[i] == entries[i + 1];
    if EntriesFit(rest, seen + {entries[0].key}, merge) && entries[0].key !in seen {
      forall i, k | 0 <= i < k < |entries|
        ensures entries[i].key != entries[k].key
      {
        assert rest[k - 1].key !in seen + {entries[0].key};
        if i > 0 {
          assert rest[i - 1].key != rest[k - 1].key;
        }
      }
    }
  }

  lemma {:induction false} WalkEntriesAccepts(entries: seq<Entry>, seen: set<Text>, depth: nat, maximum: nat,
                                              merge: bool)
    requires maximum <= USIZE_MAX
    ensures WalkEntries(entries, seen, depth, maximum, merge).None? <==>
            Fits(EntriesDepth(entries), depth, maximum) && EntriesFit(entries, seen, merge)
    decreases entries
  {
    if entries != [] {
      hide EntriesFit;
      EntriesFitStep(entries, seen, merge);
      WalkAccepts(entries[0].value, depth, maximum, merge);
      WalkEntriesAccepts(entries[1..], seen + {entries[0].key}, depth, maximum, merge);
    }
  }

  // ----- the byte scanner

  datatype Scanner = Scanner(depth: nat, inString: bool, escaped: bool)

  /** One byte; `None` once the depth limit is exceeded. */
  function ScanByte(s: Scanner, b: Byte, maximum: nat): Option<Scanner> {
    if s.inString then
      if s.escaped then Some(s.(escaped := false))
      else if b == BACKSLASH then Some(s.(escaped := true))
      else if b == QUOTE then Some(s.(inString := false))
      else Some(s)
    else if b == QUOTE then Some(s.(inString := true))
    else if b == OPEN_BRACE || b == OPEN_BRACKET then
      if s.depth + 1 > maximum then None else Some(s.(depth := s.depth + 1))
    else if b == CLOSE_BRACE || b == CLOSE_BRACKET then Some(s.(depth := if s.depth == 0 then 0 else s.depth - 1))
    else Some(s)
  }

  function Scan(s: Scanner, bytes: Text, maximum: nat): Option<Scanner>
    decreases |bytes|
  {
    if bytes == [] then Some(s)
    else
      var next := ScanByte(s, bytes[0], maximum);
      if next.None? then None else Scan(next.value, bytes[1..], maximum)
  }

  const FRESH := Scanner(0, false, false)

  /** `validate_json_depth`; a slice is never longer than the word, so the saturating counter never saturates. */
  method ValidateJsonDepth(bytes: Text, maximum: nat) returns (ok: bool)
    requires |bytes| <= USIZE_MAX && maximum <= USIZE_MAX
    ensures ok <==> Scan(FRESH, bytes, maximum).Some?
  {
    var depth, inString, escaped := 0, false, false;
    var i := 0;
    assert bytes[0..] == bytes;
    while i < |bytes|
      invariant 0 <= i <= |bytes| && 0 <= depth <= i && (escaped ==> inString)
      invariant Scan(FRESH, bytes, maximum) == Scan(Scanner(depth, inString, escaped), bytes[i..], maximum)
    {
      var b := bytes[i];
      assert bytes[i..][0] == b && bytes[i..][1..] == bytes[i + 1..];
      i := i + 1;
      if inString {
        if escaped {
          escaped := false;
        } else if b == BACKSLASH {
          escaped := true;
        } else if b == QUOTE {
          inString := false;
        }
        continue;
      }
      if b == QUOTE {
        inString := true;
      } else if b == OPEN_BRACE || b == OPEN_BRACKET {
        depth := if depth == USIZE_MAX then USIZE_MAX else depth + 1;
        if depth > maximum {
          return false;
        }
      } else if b == CLOSE_BRACE || b == CLOSE_BRACKET {
        depth := if depth == 0 then 0 else depth - 1;
      }
    }
    return true;
  }

  lemma {:induction false} ScanAppend(s: Scanner, a: Text, b: Text, maximum: nat)
    ensures Scan(s, a + b, maximum) ==
            var first := Scan(s, a, maximum); if first.None? then None else Scan(first.value, b, maximum)
    decreases |a|
  {
    if a == [] {
      assert a + b == b;
    } else {
      assert (a + b)[0] == a[0] && (a + b)[1..] == a[1..] + b;
      var next := ScanByte(s, a[0], maximum);
      if next.Some? {
        ScanAppend(next.value, a[1..], b, maximum);
      }
    }
  }

  // ----- texts of a value

  /** A byte of a string as written: itself, or escaped by a backslash. */
  datatype Piece = Plain(byte: Byte) | Escaped(byte: Byte)

  datatype Field = Field(before: Text, key: seq<Piece>, after: Text, value: Element)

  datatype Element = Element(before: Text, node: Node, after: Text)

  /** The concrete syntax of section 2 and following of RFC 8259, with every space and escape written out. */
  datatype Node =
    | Token(text: Text)
    | Quoted(pieces: seq<Piece>)
    | List(blank: Text, elements: seq<Element>)
    | Fields(blank: Text, fields: seq<Field>)

  predicate IsBlank(t: Text) {
    forall i :: 0 <= i < |t| ==> t[i] == 32 || t[i] == 9 || t[i] == 10 || t[i] == 13
  }

  /** No byte here means anything to the scanner outside strings. */
  predicate IsQuiet(t: Text) {
    forall i :: 0 <= i < |t| ==>
      t[i] != QUOTE && t[i] != OPEN_BRACKET && t[i] != CLOSE_BRACKET && t[i] != OPEN_BRACE && t[i] != CLOSE_BRACE
  }

  predicate IsString(pieces: seq<Piece>) {
    forall i :: 0 <= i < |pieces| ==> pieces[i].Plain? ==> pieces[i].byte != QUOTE && pieces[i].byte != BACKSLASH
  }

  /** Numbers and `true`, `false`, `null` are the tokens; none of them contains a quote, bracket or brace. */
  ghost predicate WellWritten(n: Node) {
    match n
    case Token(t) => t != [] && IsQuiet(t)
    case Quoted(pieces) => IsString(pieces)
    case List(blank, elements) =>
      IsBlank(blank) && forall i :: 0 <= i < |elements| ==> ElementOk(elements[i])
    case Fields(blank, fields) =>
      IsBlank(blank) && forall i :: 0 <= i < |fields| ==>
        IsBlank(fields[i].before) && IsString(fields[i].key) && IsBlank(fields[i].after) && ElementOk(fields[i].value)
  }

  ghost predicate ElementOk(e: Element) {
    IsBlank(e.before) && WellWritten(e.node) && IsBlank(e.after)
  }

  function PiecesText(pieces: seq<Piece>): Text {
    if pieces == [] then []
    else (match pieces[0] case Plain(b) => [b] case Escaped(b) => [BACKSLASH, b]) + PiecesText(pieces[1..])
  }

  function StringText(pieces: seq<Piece>): Text {
    [QUOTE] + PiecesText(pieces) + [QUOTE]
  }

  function NodeText(n: Node): Text {
    match n
    case Token(t) => t
    case Quoted(pieces) => StringText(pieces)
    case List(blank, elements) =>
      [OPEN_BRACKET] + (if elements == [] then blank else ElementsText(elements)) + [CLOSE_BRACKET]
    case Fields(blank, fields) =>
      [OPEN_BRACE] + (if fields == [] then blank else FieldsText(fields)) + [CLOSE_BRACE]
  }

  function ElementText(e: Element): Text {
    e.before + NodeText(e.node) + e.after
  }

  function ElementsText(elements: seq<Element>): Text
    requires elements != []
  {
    if |elements| == 1 then ElementText(elements[0])
    else ElementText(elements[0]) + [COMMA] + ElementsText(elements[1..])
  }

  function FieldText(f: Field): Text {
    f.before + StringText(f.key) + f.after + [COLON] + ElementText(f.value)
  }

  function FieldsText(fields: seq<Field>): Text
    requires fields != []
  {
    if |fields| == 1 then FieldText(fields[0])
    else FieldText(fields[0]) + [COMMA] + FieldsText(fields[1..])
  }

  /** The value a text stands for; `unescape` turns a written string into its characters. */
  function ValueOf(n: Node, unescape: seq<Piece> -> Text): Json {
    match n
    case Token(_) => Scalar
    case Quoted(_) => Scalar
    case List(_, elements) => Sequence(ItemValues(elements, unescape))
    case Fields(_, fields) => Mapping(EntryValues(fields, unescape))
  }

  function ItemValues(elements: seq<Element>, unescape: seq<Piece> -> Text): seq<Json> {
    if elements == [] then [] else [ValueOf(elements[0].node, unescape)] + ItemValues(elements[1..], unescape)
  }

  function EntryValues(fields: seq<Field>, unescape: seq<Piece> -> Text): seq<Entry> {
    if fields == [] then []
    else [Entry(unescape(fields[0].key), ValueOf(fields[0].value.node, unescape))] + EntryValues(fields[1..], unescape)
  }

  // ----- the scanner on texts of values

  function Outside(depth: nat): Scanner {
    Scanner(depth, false, false)
  }

  /** Scanning the text comes back to the same depth, failing exactly when `inner` more levels do not fit. */
  ghost predicate Balanced(t: Text, inner: nat, depth: nat, maximum: nat) {
    Scan(Outside(depth), t, maximum) == if Fits(inner, depth, maximum) then Some(Outside(depth)) else None
  }

  lemma {:induction false} QuietIsBalanced(t: Text, depth: nat, maximum: nat)
    requires IsQuiet(t)
    ensures Balanced(t, 0, depth, maximum)
    decreases |t|
  {
    if t != [] {
      assert IsQuiet(t[1..]);
      QuietIsBalanced(t[1..], depth, maximum);
    }
  }

  lemma {:induction false} PiecesAreScanned(pieces: seq<Piece>, depth: nat, maximum: nat)
    requires IsString(pieces)
    ensures Scan(Scanner(depth, true, false), PiecesText(pieces), maximum) == Some(Scanner(depth, true, false))
  {
    if pieces != [] {
      assert IsString(pieces[1..]);
      PiecesAreScanned(pieces[1..], depth, maximum);
      var inside := Scanner(depth, true, false);
      var head := match pieces[0] case Plain(b) => [b] case Escaped(b) => [BACKSLASH, b];
      ScanAppend(inside, head, PiecesText(pieces[1..]), maximum);
      if pieces[0].Escaped? {
        assert head[1..] == [pieces[0].byte];
        assert Scan(Scanner(depth, true, true), head[1..], maximum) == Some(inside);
      }
    }
  }

  lemma StringIsBalanced(pieces: seq<Piece>, depth: nat, maximum: nat)
    requires IsString(pieces)
    ensures Balanced(StringText(pieces), 0, depth, maximum)
  {
    var inside := Scanner(depth, true, false);
    PiecesAreScanned(pieces, depth, maximum);
    ScanAppend(Outside(depth), [QUOTE], PiecesText(pieces), maximum);
    ScanAppend(Outside(depth), [QUOTE] + PiecesText(pieces), [QUOTE], maximum);
    assert Scan(Outside(depth), [QUOTE], maximum) == Some(inside);
    assert Scan(inside, [QUOTE], maximum) == Some(Outside(depth));
  }

  lemma BalancedAppend(a: Text, b: Text, x: nat, y: nat, depth: nat, maximum: nat)
    requires Balanced(a, x, depth, maximum) && Balanced(b, y, depth, maximum)
    ensures Balanced(a + b, Max(x, y), depth, maximum)
  {
    ScanAppend(Outside(depth), a, b, maximum);
  }

  lemma BalancedWrap(open: Byte, t: Text, close: Byte, inner: nat, depth: nat, maximum: nat)
    requires (open == OPEN_BRACKET && close == CLOSE_BRACKET) || (open == OPEN_BRACE && close == CLOSE_BRACE)
    requires Balanced(t, inner, depth + 1, maximum)
    ensures Balanced([open] + t + [close], 1 + inner, depth, maximum)
  {
    ScanAppend(Outside(depth), [open], t, maximum);
    ScanAppend(Outside(depth), [open] + t, [close], maximum);
    assert Scan(Outside(depth), [open], maximum) == if depth + 1 > maximum then None else Some(Outside(depth + 1));
    assert Scan(Outside(depth + 1), [close], maximum) == Some(Outside(depth));
  }

  lemma BlankIsQuiet(t: Text)
    requires IsBlank(t)
    ensures IsQuiet(t)
  {
  }

  lemma {:induction false} NodeIsBalanced(n: Node, unescape: seq<Piece> -> Text, depth: nat, maximum: nat)
    requires WellWritten(n)
    ensures Balanced(NodeText(n), Depth(ValueOf(n, unescape)), depth, maximum)
    decreases n
  {
    hide Balanced;
    match n
    case Token(t) => QuietIsBalanced(t, depth, maximum);
    case Quoted(pieces) => StringIsBalanced(pieces, depth, maximum);
    case List(blank, elements) =>
      if elements == [] {
        BlankIsQuiet(blank);
        QuietIsBalanced(blank, depth + 1, maximum);
        BalancedWrap(OPEN_BRACKET, blank, CLOSE_BRACKET, 0, depth, maximum);
      } else {
        ElementsAreBalanced(elements, unescape, depth + 1, maximum);
        BalancedWrap(OPEN_BRACKET, ElementsText(elements), CLOSE_BRACKET, ItemsDepth(ItemValues(elements, unescape)),
                     depth, maximum);
      }
    case Fields(blank, fields) =>
      if fields == [] {
        BlankIsQuiet(blank);
        QuietIsBalanced(blank, depth + 1, maximum);
        BalancedWrap(OPEN_BRACE, blank, CLOSE_BRACE, 0, depth, maximum);
      } else {
        FieldsAreBalanced(fields, unescape, depth + 1, maximum);
        BalancedWrap(OPEN_BRACE, FieldsText(fields), CLOSE_BRACE, EntriesDepth(EntryValues(fields, unescape)),
                     depth, maximum);
      }
  }

  lemma {:induction false} ElementIsBalanced(e: Element, unescape: seq<Piece> -> Text, depth: nat, maximum: nat)
    requires ElementOk(e)
    ensures Balanced(ElementText(e), Depth(ValueOf(e.node, unescape)), depth, maximum)
    decreases e
  {
    hide Balanced;
    var inner := Depth(ValueOf(e.node, unescape));
    BlankIsQuiet(e.before);
    BlankIsQuiet(e.after);
    QuietIsBalanced(e.before, depth, maximum);
    QuietIsBalanced(e.after, depth, maximum);
    NodeIsBalanced(e.node, unescape, depth, maximum);
    BalancedAppend(e.before, NodeText(e.node), 0, inner, depth, maximum);
    BalancedAppend(e.before + NodeText(e.node), e.after, inner, 0, depth, maximum);
  }

  lemma {:induction false} ElementsAreBalanced(elements: seq<Element>, unescape: seq<Piece> -> Text, depth: nat,
                                               maximum: nat)
    requires elements != [] && forall i :: 0 <= i < |elements| ==> ElementOk(elements[i])
    ensures Balanced(ElementsText(elements), ItemsDepth(ItemValues(elements, unescape)), depth, maximum)
    decreases elements
  {
    hide Balanced;
    ElementIsBalanced(elements[0], unescape, depth, maximum);
    var first, tail := Depth(ValueOf(elements[0].node, unescape)), ItemValues(elements[1..], unescape);
    assert ItemValues(elements, unescape)[0] == ValueOf(elements[0].node, unescape);
    assert ItemValues(elements, unescape)[1..] == tail;
    if |elements| > 1 {
      ElementsAreBalanced(elements[1..], unescape, depth, maximum);
      CommaSeparates(ElementText(elements[0]), ElementsText(elements[1..]), first, ItemsDepth(tail), depth, maximum);
    }
  }

  lemma CommaSeparates(a: Text, b: Text, x: nat, y: nat, depth: nat, maximum: nat)
    requires Balanced(a, x, depth, maximum) && Balanced(b, y, depth, maximum)
    ensures Balanced(a + [COMMA] + b, Max(x, y), depth, maximum)
  {
    hide Balanced;
    QuietIsBalanced([COMMA], depth, maximum);
    BalancedAppend(a, [COMMA], x, 0, depth, maximum);
    BalancedAppend(a + [COMMA], b, x, y, depth, maximum);
  }

  lemma {:induction false} FieldIsBalanced(f: Field, unescape: seq<Piece> -> Text, depth: nat, maximum: nat)
    requires IsBlank(f.before) && IsString(f.key) && IsBlank(f.after) && ElementOk(f.value)
    ensures Balanced(FieldText(f), Depth(ValueOf(f.value.node, unescape)), depth, maximum)
    decreases f
  {
    hide Balanced;
    var inner := Depth(ValueOf(f.value.node, unescape));
    BlankIsQuiet(f.before);
    BlankIsQuiet(f.after);
    QuietIsBalanced(f.before, depth, maximum);
    StringIsBalanced(f.key, depth, maximum);
    QuietIsBalanced(f.after, depth, maximum);
    QuietIsBalanced([COLON], depth, maximum);
    ElementIsBalanced(f.value, unescape, depth, maximum);
    BalancedAppend(f.before, StringText(f.key), 0, 0, depth, maximum);
    BalancedAppend(f.before + StringText(f.key), f.after, 0, 0, depth, maximum);
    BalancedAppend(f.before + StringText(f.key) + f.after, [COLON], 0, 0, depth, maximum);
    BalancedAppend(f.before + StringText(f.key) + f.after + [COLON], ElementText(f.value), 0, inner, depth, maximum);
  }

  lemma {:induction false} FieldsAreBalanced(fields: seq<Field>, unescape: seq<Piece> -> Text, depth: nat, maximum: nat)
    requires fields != [] && forall i :: 0 <= i < |fields| ==>
               IsBlank(fields[i].before) && IsString(fields[i].key) && IsBlank(fields[i].after)
                   && ElementOk(fields[i].value)
    ensures Balanced(FieldsText(fields), EntriesDepth(EntryValues(fields, unescape)), depth, maximum)
    decreases fields
  {
    hide Balanced;
    FieldIsBalanced(fields[0], unescape, depth, maximum);
    var first, tail := Depth(ValueOf(fields[0].value.node, unescape)), EntryValues(fields[1..], unescape);
    assert EntryValues(fields, unescape)[0].value == ValueOf(fields[0].value.node, unescape);
    assert EntryValues(fields, unescape)[1..] == tail;
    if |fields| > 1 {
      FieldsAreBalanced(fields[1..], unescape, depth, maximum);
      CommaSeparates(FieldText(fields[0]), FieldsText(fields[1..]), first, EntriesDepth(tail), depth, maximum);
    }
  }

  // ----- main results

  /** On every text of every value the scanner accepts exactly up to the value's container depth. */
  lemma ScannerMeasuresDepth(document: Element, unescape: seq<Piece> -> Text, maximum: nat)
    requires ElementOk(document)
    ensures Scan(FRESH, ElementText(document), maximum).Some? <==> Depth(ValueOf(document.node, unescape)) <= maximum
  {
    ElementIsBalanced(document, unescape, 0, maximum);
  }

  /**
   The strict walker accepts exactly that depth, distinct keys at every level, and no
   merge key when it is refused.
   */
  lemma WalkerMeasuresDepth(j: Json, maximum: nat, merge: bool)
    requires maximum <= USIZE_MAX
    ensures Walk(j, 0, maximum, merge).None? <==> Depth(j) <= maximum && KeysFit(j, merge)
  {
    WalkAccepts(j, 0, maximum, merge);
  }

  /** For values without repeated keys the two agree at every limit, on every text of the value. */
  lemma ScannerAgreesWithWalker(document: Element, unescape: seq<Piece> -> Text, maximum: nat)
    requires ElementOk(document) && KeysFit(ValueOf(document.node, unescape), false) && maximum <= USIZE_MAX
    ensures Scan(FRESH, ElementText(document), maximum).Some? <==>
            Walk(ValueOf(document.node, unescape), 0, maximum, false).None?
  {
    ScannerMeasuresDepth(document, unescape, maximum);
    WalkerMeasuresDepth(ValueOf(document.node, unescape), maximum, false);
  }

  // ----- the texts include every spelling

  const EXAMPLE_FIELD := Field([32], [Plain(107)], [9], Element([], Token([49]), []))
  const FIRST_ELEMENT := Element([32], Quoted([Plain(97), Escaped(34), Plain(93)]), [])
  const SECOND_ELEMENT := Element([10], Fields([], [EXAMPLE_FIELD]), [13])
  const EXAMPLE := Element([9], List([], [FIRST_ELEMENT, SECOND_ELEMENT]), [10])

  lemma FieldSpelled()
    ensures NodeText(Fields([], [EXAMPLE_FIELD])) == [123, 32, 34, 107, 34, 9, 58, 49, 125]
  {
    assert PiecesText([Plain(107)]) == [107];
    assert FieldText(EXAMPLE_FIELD) == [32, 34, 107, 34, 9, 58, 49];
  }

  lemma StringSpelled()
    ensures NodeText(Quoted([Plain(97), Escaped(34), Plain(93)])) == [34, 97, 92, 34, 93, 34]
  {
    var pieces := [Plain(97), Escaped(34), Plain(93)];
    assert pieces[1..] == [Escaped(34), Plain(93)] && pieces[1..][1..] == [Plain(93)];
    assert PiecesText([Plain(93)]) == [93];
    assert PiecesText([Escaped(34), Plain(93)]) == [92, 34] + [93];
  }

  lemma ListSpelled()
    ensures var first, second := NodeText(FIRST_ELEMENT.node), NodeText(SECOND_ELEMENT.node);
            NodeText(EXAMPLE.node) == [91] + ([32] + first) + [44] + ([10] + second + [13]) + [93]
  {
    hide StringText, FieldsText;
    var elements := [FIRST_ELEMENT, SECOND_ELEMENT];
    assert elements[1..] == [SECOND_ELEMENT];
    var first, second := ElementText(FIRST_ELEMENT), ElementText(SECOND_ELEMENT);
    assert first == [32] + NodeText(FIRST_ELEMENT.node);
    assert second == [10] + NodeText(SECOND_ELEMENT.node) + [13];
    assert ElementsText([SECOND_ELEMENT]) == second;
    assert ElementsText(elements) == first + [44] + second;
    assert NodeText(EXAMPLE.node) == [91] + (first + [44] + second) + [93];
  }

  lemma ExampleIsOk()
    ensures ElementOk(EXAMPLE)
  {
    assert IsString(EXAMPLE_FIELD.key) && IsQuiet([49]);
    assert ElementOk(EXAMPLE_FIELD.value);
    assert ElementOk(FIRST_ELEMENT) && ElementOk(SECOND_ELEMENT);
  }

  lemma FirstHalf()
    ensures Ascii("\t[ \"a\\\"]\",\n") == [9, 91, 32, 34, 97, 92, 34, 93, 34, 44, 10]
  {
  }

  lemma SecondHalf()
    ensures Ascii("{ \"k\"\t:1}\r]\n") == [123, 32, 34, 107, 34, 9, 58, 49, 125, 13, 93, 10]
  {
  }

  lemma Regroups(first: Text, second: Text)
    ensures [9] + ([91] + ([32] + first) + [44] + ([10] + second + [13]) + [93]) + [10]
            == ([9, 91, 32] + first + [44, 10]) + (second + [13, 93, 10])
  {
  }

  lemma HalvesJoin()
    ensures [9, 91, 32] + [34, 97, 92, 34, 93, 34] + [44, 10] == [9, 91, 32, 34, 97, 92, 34, 93, 34, 44, 10]
    ensures [123, 32, 34, 107, 34, 9, 58, 49, 125] + [13, 93, 10] == [123, 32, 34, 107, 34, 9, 58, 49, 125, 13, 93, 10]
  {
  }

  lemma ExampleText()
    ensures ElementText(EXAMPLE)
            == [9, 91, 32, 34, 97, 92, 34, 93, 34, 44, 10] + [123, 32, 34, 107, 34, 9, 58, 49, 125, 13, 93, 10]
  {
    assert ElementText(EXAMPLE) == [9] + NodeText(EXAMPLE.node) + [10];
    hide NodeText, ElementText;
    var first, second := NodeText(FIRST_ELEMENT.node), NodeText(SECOND_ELEMENT.node);
    ListSpelled();
    Regroups(first, second);
    StringSpelled();
    FieldSpelled();
    HalvesJoin();
  }

  /** A text with blanks of all four kinds, an escaped quote, a bracket inside a string, and both containers. */
  lemma TextsAreSpelledOut()
    ensures ElementOk(EXAMPLE)
    ensures ElementText(EXAMPLE) == Ascii("\t[ \"a\\\"]\",\n") + Ascii("{ \"k\"\t:1}\r]\n")
  {
    hide ElementText, ElementOk, EXAMPLE;
    ExampleIsOk();
    ExampleText();
    FirstHalf();
    SecondHalf();
  }
}
