/** What the Squirrel encoder writes denotes the object: a JSON parser reads the encoded text of an object graph as
    the tree that the graph unfolds to. */
module EncodedMeaning {
  import opened Bytes
  import opened ObjectTable
  import opened SquirrelEncoder
  import opened Grammar
  import opened GrammarLaws
  import opened EncoderLaws
  import JsonValue
  import Parser
  import SquirrelString
  import Utf8

  type Value = JsonValue.Value

  // ---------- The tree of an object graph ----------

  ghost predicate IsInteger(text: bytes, n: int) {
    exists negative, ds :: SpellsInteger(text, n, negative, ds)
  }

  ghost predicate SpellsInteger(text: bytes, n: int, negative: bool, ds: bytes) {
    var d := NumberDoc(negative, ds);
    GoodDoc(d) && Written(d) == text && Meaning(d) == JsonValue.Number(n)
  }

  /** The bytes that the encoder escapes or that need no escape: all but the control bytes without a two-character
      escape. */
  predicate Escapable(b: byte) {
    b >= 0x20 || b in {0x08, 0x09, 0x0A, 0x0C, 0x0D}
  }

  ghost predicate Readable(data: bytes) {
    Utf8.ValidRange(data, 0, |data|) && forall k | 0 <= k < |data| :: Escapable(data[k])
  }

  /** Keys are written as they are. */
  ghost predicate PlainKey(key: bytes) {
    forall k | 0 <= k < |key| :: key[k] >= 0x20 && key[k] != QUOTE && key[k] != BACKSLASH
  }

  /** At this depth the object stands for the value: tables for objects with their members in order and without the
      functions, an instance for its members or, where its iteration fails, for what its class stands for. */
  ghost predicate StandsFor(g: Graph, o: Object, v: Value, depth: nat)
    requires Closed(g) && Known(g, o)
    decreases Budget(depth), Rank(g, o), 1
  {
    depth <= MAX_ENCODE_DEPTH &&
    match o
    case Null => v == JsonValue.Null
    case Bool(b) => v == JsonValue.Bool(b)
    case Number(text) => v.Number? && IsInteger(text, v.n)
    case Text(data) => v == JsonValue.Str(data) && Readable(data)
    case Function => false
    case Unserializable => false
    case Ref(id) => NodeStandsFor(g, id, v, depth)
  }

  ghost predicate NodeStandsFor(g: Graph, id: nat, v: Value, depth: nat)
    requires Closed(g) && id in g && depth <= MAX_ENCODE_DEPTH
    decreases Budget(depth), Rank(g, Ref(id)), 0
  {
    assert NodeKnown(g, g[id]);
    match g[id]
    case Table(ms) => v.Object? && MembersStandFor(g, ms, |ms|, v.members, depth + 1)
    case Array(es) => v.Array? && ElementsStandFor(g, es, |es|, v.items, depth + 1)
    case Blob(data) => v == JsonValue.Str(data) && Readable(data)
    case SerializesRaw(text, _) => v.Str? && text.Some? && SpellsString(text.value, v.s)
    case Serializes(r, _) => r.Some? && StandsFor(g, r.value, v, depth + 1)
    case Instance(ms, error, cls) =>
      if IterationFails(g, ms, error, depth) then
        Standable(g, ms, depth + 1) && StandsFor(g, Ref(cls), v, depth)
      else v.Object? && MembersStandFor(g, ms, |ms|, v.members, depth + 1)
  }

  ghost predicate Standable(g: Graph, ms: seq<Member>, depth: nat)
    requires Closed(g) && AllKnown(g, ms)
    decreases Budget(depth), 3
  {
    exists es :: MembersStandFor(g, ms, |ms|, es, depth)
  }

  /** The text between quotes spells the string. */
  ghost predicate SpellsString(text: bytes, s: bytes) {
    exists cs :: GoodChars(cs) && CharsText(cs) == text && Stored(cs) == s
  }

  ghost predicate MembersStandFor(g: Graph, ms: seq<Member>, n: nat, es: seq<Entry<Value>>, depth: nat)
    requires Closed(g) && AllKnown(g, ms) && n <= |ms|
    decreases Budget(depth), 2, n
  {
    if n == 0 then es == []
    else if ms[n - 1].value.Function? then MembersStandFor(g, ms, n - 1, es, depth)
    else
      && es != []
      && ms[n - 1].key == Some(es[|es| - 1].name) && PlainKey(es[|es| - 1].name)
      && StandsFor(g, ms[n - 1].value, es[|es| - 1].value, depth)
      && MembersStandFor(g, ms, n - 1, es[..|es| - 1], depth)
  }

  ghost predicate ElementsStandFor(g: Graph, es: seq<Object>, n: nat, vs: seq<Value>, depth: nat)
    requires Closed(g) && n <= |es| && forall i | 0 <= i < |es| :: Known(g, es[i])
    decreases Budget(depth), 2, n
  {
    if n == 0 then vs == []
    else
      && vs != [] && StandsFor(g, es[n - 1], vs[|vs| - 1], depth)
      && ElementsStandFor(g, es, n - 1, vs[..|vs| - 1], depth)
  }

  // ---------- Strings and keys ----------

  /** What the encoder writes for one byte of valid UTF-8 is one character of the grammar. */
  function WrittenChar(c: byte): Char {
    if c in {0x22, 0x5C, 0x2F} then Short(c)
    else if c == 0x08 then Short(0x62)
    else if c == 0x0C then Short(0x66)
    else if c == 0x0A then Short(0x6E)
    else if c == 0x0D then Short(0x72)
    else if c == 0x09 then Short(0x74)
    else Plain(c)
  }

  function WrittenChars(data: bytes): seq<Char> {
    if data == [] then [] else [WrittenChar(data[0])] + WrittenChars(data[1..])
  }

  lemma CharWritten(c: byte)
    requires Escapable(c)
    ensures GoodChar(WrittenChar(c)) && CharBytes(WrittenChar(c)) == [c]
    ensures CharText(WrittenChar(c)) == SquirrelString.ByteEscape(c)
  {
  }

  lemma {:induction false} CharsWritten(data: bytes)
    requires forall k | 0 <= k < |data| :: Escapable(data[k])
    ensures var cs := WrittenChars(data);
            GoodChars(cs) && CharsBytes(cs) == data && CharsText(cs) == SquirrelString.BytewiseEscape(data)
    decreases |data|
  {
    hide GoodChar, CharText, CharBytes, WrittenChar, SquirrelString.ByteEscape, Escapable;
    if data != [] {
      CharWritten(data[0]);
      CharsWritten(data[1..]);
      var c, rest := WrittenChar(data[0]), WrittenChars(data[1..]);
      assert ([c] + rest)[1..] == rest;
      assert data == [data[0]] + data[1..];
    }
  }

  /** The quoted text of readable data spells the data. */
  lemma TextSpells(data: bytes)
    requires Readable(data)
    ensures var cs := WrittenChars(data);
            GoodChars(cs) && Stored(cs) == data && QuotedText(data) == Some(StringText(cs))
  {
    hide GoodChars, CharsText, CharsBytes, WrittenChars, Utf8.ValidRange, SquirrelString.BytewiseEscape;
    CharsWritten(data);
    SquirrelString.ValidIsEncodedBytewise(data, 0);
    assert data[0..] == data;
    assert NulFree(data) by {
      assert forall k | 0 <= k < |data| :: Escapable(data[k]);
    }
    CStringOfNulFree(data);
  }

  function PlainChars(key: bytes): seq<Char> {
    seq(|key|, i requires 0 <= i < |key| => Plain(key[i]))
  }

  lemma {:induction false} KeySpells(key: bytes)
    requires PlainKey(key)
    ensures var cs := PlainChars(key);
            GoodChars(cs) && CharsText(cs) == key && CharsBytes(cs) == key && Stored(cs) == key
    decreases |key|
  {
    if key != [] {
      KeySpells(key[1..]);
      assert PlainChars(key)[1..] == PlainChars(key[1..]);
      assert key == [key[0]] + key[1..];
    }
    assert NulFree(key);
    CStringOfNulFree(key);
  }

  // ---------- The text of what stands for a value is a document of it ----------

  lemma {:induction false} JoinHead(parts: seq<bytes>)
    requires |parts| > 1
    ensures Join(parts) == parts[0] + [COMMA] + Join(parts[1..])
    decreases |parts|
  {
    var last := |parts| - 1;
    assert parts[1..][..last - 1] == parts[..last][1..];
    if |parts| == 2 {
      assert parts[..1] == [parts[0]] && parts[1..] == [parts[1]];
    } else {
      JoinHead(parts[..last]);
      assert parts[0] + [COMMA] + Join(parts[..last][1..]) + [COMMA] + parts[last]
          == parts[0] + [COMMA] + (Join(parts[..last][1..]) + [COMMA] + parts[last]);
    }
  }

  lemma JoinFew(parts: seq<bytes>)
    ensures parts == [] ==> Join(parts) == []
    ensures |parts| == 1 ==> Join(parts) == parts[0]
  {
  }

  ghost predicate ItemParts(parts: seq<bytes>, docs: seq<ItemDoc>) {
    && |parts| == |docs|
    && forall i | 0 <= i < |parts| :: docs[i] == ItemDoc([], docs[i].doc, []) && parts[i] == Written(docs[i].doc)
  }

  ghost predicate MemberPart(part: bytes, m: MemberDoc) {
    m == MemberDoc([], m.key, [], [], m.doc, []) && part == StringText(m.key) + [COLON] + Written(m.doc)
  }

  ghost predicate MemberParts(parts: seq<bytes>, docs: seq<MemberDoc>) {
    |parts| == |docs| && forall i | 0 <= i < |parts| :: MemberPart(parts[i], docs[i])
  }

  lemma {:induction false} JoinedItems(parts: seq<bytes>, docs: seq<ItemDoc>)
    requires ItemParts(parts, docs)
    ensures Written(ArrayDoc(docs, [])) == [LBRACKET] + Join(parts) + [RBRACKET]
    ensures docs != [] ==> Join(parts) == WrittenItems(docs)
    decreases |parts|
  {
    hide Written, WrittenItems, Join;
    JoinFew(parts);
    if |parts| > 0 {
      WrittenItemsUnfold(docs);
      var text := Written(docs[0].doc);
      assert [] + text + [] == text;
      if |parts| > 1 {
        JoinHead(parts);
        JoinedItems(parts[1..], docs[1..]);
      }
    }
    ArrayText(docs);
  }

  lemma ArrayText(docs: seq<ItemDoc>)
    ensures Written(ArrayDoc(docs, [])) == [LBRACKET] + (if docs == [] then [] else WrittenItems(docs)) + [RBRACKET]
  {
    hide WrittenItems;
  }

  lemma {:induction false} JoinedMembers(parts: seq<bytes>, docs: seq<MemberDoc>)
    requires MemberParts(parts, docs)
    ensures Written(ObjectDoc(docs, [])) == [LBRACE] + Join(parts) + [RBRACE]
    ensures docs != [] ==> Join(parts) == WrittenMembers(docs)
    decreases |parts|
  {
    hide Written, StringText, WrittenMembers, Join;
    JoinFew(parts);
    if |parts| > 0 {
      WrittenMembersUnfold(docs);
      assert MemberPart(parts[0], docs[0]);
      var key, text := StringText(docs[0].key), Written(docs[0].doc);
      assert [] + key + [] + [COLON] + [] + text + [] == key + [COLON] + text;
      if |parts| > 1 {
        JoinHead(parts);
        JoinedMembers(parts[1..], docs[1..]);
      }
    }
    ObjectText(docs);
  }

  lemma ObjectText(docs: seq<MemberDoc>)
    ensures Written(ObjectDoc(docs, [])) == [LBRACE] + (if docs == [] then [] else WrittenMembers(docs)) + [RBRACE]
  {
    hide WrittenMembers;
  }

  lemma {:induction false} ItemsAppended(docs: seq<ItemDoc>, last: ItemDoc)
    ensures ItemValues(docs + [last]) == ItemValues(docs) + [Meaning(last.doc)]
    decreases |docs|
  {
    hide Meaning;
    if docs == [] {
      assert ([] + [last])[1..] == [];
    } else {
      assert (docs + [last])[1..] == docs[1..] + [last];
      ItemsAppended(docs[1..], last);
    }
  }

  lemma {:induction false} MembersAppended(docs: seq<MemberDoc>, last: MemberDoc)
    ensures MemberEntries(docs + [last]) == MemberEntries(docs) + [Entry(Stored(last.key), Meaning(last.doc))]
    decreases |docs|
  {
    hide Meaning, Stored;
    if docs == [] {
      assert ([] + [last])[1..] == [];
    } else {
      assert (docs + [last])[1..] == docs[1..] + [last];
      MembersAppended(docs[1..], last);
    }
  }

  /** What stands for a value is encoded, and its text is a document of that value. */
  lemma {:induction false} EncodedIsDocument(g: Graph, o: Object, v: Value, depth: nat) returns (d: Doc)
    requires Closed(g) && Known(g, o) && StandsFor(g, o, v, depth)
    ensures EncodeObject(g, o, depth) == Some(Written(d)) && GoodDoc(d) && Meaning(d) == v
    decreases Budget(depth), Rank(g, o), 2
  {
    hide NodeStandsFor, EncodeNode, QuotedText, Readable, GoodChars, StringText, Stored, Closed, IsInteger;
    match o
    case Null => d := NullDoc;
    case Bool(b) => d := BoolDoc(b);
    case Number(text) => d := IntegerDocument(text, v.n);
    case Text(data) =>
      TextSpells(data);
      d := StringDoc(WrittenChars(data));
    case Ref(id) => d := NodeIsDocument(g, id, v, depth);
  }

  lemma IntegerDocument(text: bytes, n: int) returns (d: Doc)
    requires IsInteger(text, n)
    ensures GoodDoc(d) && Written(d) == text && Meaning(d) == JsonValue.Number(n)
  {
    var negative, ds :| SpellsInteger(text, n, negative, ds);
    d := NumberDoc(negative, ds);
  }

  lemma {:induction false} NodeIsDocument(g: Graph, id: nat, v: Value, depth: nat) returns (d: Doc)
    requires Closed(g) && id in g && depth <= MAX_ENCODE_DEPTH && NodeStandsFor(g, id, v, depth)
    ensures EncodeNode(g, id, depth) == Some(Written(d)) && GoodDoc(d) && Meaning(d) == v
    decreases Budget(depth), Rank(g, Ref(id)), 1
  {
    hide StandsFor, EncodeObject, MembersStandFor, ElementsStandFor, EncodeMembers, EncodeElements, QuotedText;
    hide Readable, GoodChars, StringText, Stored, IterationFails, Join, Written, Meaning, GoodDoc, SpellsString;
    assert NodeKnown(g, g[id]);
    match g[id]
    case Table(ms) => d := TableIsDocument(g, ms, v, depth);
    case Array(es) =>
      var docs := ElementsAreDocuments(g, es, |es|, v.items, depth + 1);
      JoinedItems(EncodeElements(g, es, |es|, depth + 1).value, docs);
      ItemsMakeArray(docs, v);
      d := ArrayDoc(docs, []);
    case Blob(data) =>
      TextSpells(data);
      d := StringDoc(WrittenChars(data));
      StringMeans(WrittenChars(data));
    case SerializesRaw(text, _) => d := RawIsDocument(text.value, v.s);
    case Serializes(r, _) => d := EncodedIsDocument(g, r.value, v, depth + 1);
    case Instance(ms, error, cls) =>
      if IterationFails(g, ms, error, depth) {
        var es :| MembersStandFor(g, ms, |ms|, es, depth + 1);
        var docs := MembersAreDocuments(g, ms, |ms|, es, depth + 1);
        d := EncodedIsDocument(g, Ref(cls), v, depth);
      } else {
        d := TableIsDocument(g, ms, v, depth);
      }
  }

  lemma StringMeans(cs: seq<Char>)
    requires GoodChars(cs)
    ensures var d := StringDoc(cs);
            GoodDoc(d) && Written(d) == StringText(cs) && Meaning(d) == JsonValue.Str(Stored(cs))
  {
  }

  lemma RawIsDocument(text: bytes, s: bytes) returns (d: Doc)
    requires SpellsString(text, s)
    ensures Written(d) == [QUOTE] + text + [QUOTE] && GoodDoc(d) && Meaning(d) == JsonValue.Str(s)
  {
    hide GoodChars, CharsText, Stored;
    var cs :| GoodChars(cs) && CharsText(cs) == text && Stored(cs) == s;
    d := StringDoc(cs);
  }

  lemma ItemsMakeArray(docs: seq<ItemDoc>, v: Value)
    requires v.Array? && AllGoodItems(docs) && ItemValues(docs) == v.items
    ensures GoodDoc(ArrayDoc(docs, [])) && Meaning(ArrayDoc(docs, [])) == v
  {
    hide GoodItem, ItemValues;
  }

  lemma MembersMakeObject(docs: seq<MemberDoc>, v: Value)
    requires v.Object? && AllGoodMembers(docs) && MemberEntries(docs) == v.members
    ensures GoodDoc(ObjectDoc(docs, [])) && Meaning(ObjectDoc(docs, [])) == v
  {
    hide GoodMember, MemberEntries;
  }

  lemma {:induction false} TableIsDocument(g: Graph, ms: seq<Member>, v: Value, depth: nat) returns (d: Doc)
    requires Closed(g) && AllKnown(g, ms) && depth <= MAX_ENCODE_DEPTH
    requires v.Object? && MembersStandFor(g, ms, |ms|, v.members, depth + 1)
    ensures EncodeMembers(g, ms, |ms|, depth + 1).Some?
    ensures Enclosed(LBRACE, EncodeMembers(g, ms, |ms|, depth + 1), RBRACE) == Some(Written(d))
    ensures GoodDoc(d) && Meaning(d) == v
    decreases Budget(depth), 0, 0
  {
    hide MembersStandFor, EncodeMembers, Join, Written, Meaning, GoodDoc;
    var docs := MembersAreDocuments(g, ms, |ms|, v.members, depth + 1);
    JoinedMembers(EncodeMembers(g, ms, |ms|, depth + 1).value, docs);
    MembersMakeObject(docs, v);
    d := ObjectDoc(docs, []);
  }

  lemma {:induction false} ElementsAreDocuments(g: Graph, es: seq<Object>, n: nat, vs: seq<Value>, depth: nat)
    returns (docs: seq<ItemDoc>)
    requires Closed(g) && n <= |es| && forall i | 0 <= i < |es| :: Known(g, es[i])
    requires ElementsStandFor(g, es, n, vs, depth)
    ensures EncodeElements(g, es, n, depth).Some? && ItemParts(EncodeElements(g, es, n, depth).value, docs)
    ensures AllGoodItems(docs) && ItemValues(docs) == vs
    decreases Budget(depth), 2, n
  {
    hide StandsFor, EncodeObject, Closed, Written, Meaning, GoodDoc, ItemValues;
    if n == 0 {
      docs := [];
      NoItems(0);
    } else {
      var before := ElementsAreDocuments(g, es, n - 1, vs[..|vs| - 1], depth);
      var d := EncodedIsDocument(g, es[n - 1], vs[|vs| - 1], depth);
      var last := ItemDoc([], d, []);
      ItemsAppended(before, last);
      docs := before + [last];
    }
  }

  lemma {:induction false} MembersAreDocuments(g: Graph, ms: seq<Member>, n: nat, es: seq<Entry<Value>>, depth: nat)
    returns (docs: seq<MemberDoc>)
    requires Closed(g) && AllKnown(g, ms) && n <= |ms| && MembersStandFor(g, ms, n, es, depth)
    ensures EncodeMembers(g, ms, n, depth).Some? && MemberParts(EncodeMembers(g, ms, n, depth).value, docs)
    ensures AllGoodMembers(docs) && MemberEntries(docs) == es
    decreases Budget(depth), 2, n
  {
    hide StandsFor, EncodeObject, Closed, Written, Meaning, GoodDoc, MemberEntries, GoodChars, StringText, Stored;
    hide PlainKey, MemberPart;
    if n == 0 {
      docs := [];
      NoMembers(0);
    } else if ms[n - 1].value.Function? {
      docs := MembersAreDocuments(g, ms, n - 1, es, depth);
    } else {
      var m, e := ms[n - 1], es[|es| - 1];
      var before := MembersAreDocuments(g, ms, n - 1, es[..|es| - 1], depth);
      var d := EncodedIsDocument(g, m.value, e.value, depth);
      var last := MemberDoc([], PlainChars(e.name), [], [], d, []);
      KeySpells(e.name);
      MembersAppended(before, last);
      PartOfMember(e.name, d);
      docs := before + [last];
      assert e == Entry(e.name, e.value);
    }
  }

  lemma PartOfMember(name: bytes, d: Doc)
    requires PlainKey(name)
    ensures MemberPart(KeyText(name) + Written(d), MemberDoc([], PlainChars(name), [], [], d, []))
  {
    hide Written, PlainKey, CharsText, CharsBytes, GoodChars, Stored;
    KeySpells(name);
    assert KeyText(name) == [QUOTE] + name + [QUOTE] + [COLON];
  }

  // ---------- It is read back ----------

  /** The encoder's own depth limit keeps the tree low. */
  lemma {:induction false} StandsForIsLow(g: Graph, o: Object, v: Value, depth: nat)
    requires Closed(g) && Known(g, o) && StandsFor(g, o, v, depth)
    ensures JsonValue.NestsWithin(v, MAX_ENCODE_DEPTH - depth)
    decreases Budget(depth), Rank(g, o), 2
  {
    hide Readable, IsInteger, SpellsString, MembersStandFor, ElementsStandFor, IterationFails;
    if o.Ref? {
      assert NodeKnown(g, g[o.id]);
      match g[o.id]
      case Table(ms) => EntriesAreLow(g, ms, |ms|, v.members, depth + 1);
      case Array(es) => ValuesAreLow(g, es, |es|, v.items, depth + 1);
      case Serializes(r, _) =>
        StandsForIsLow(g, r.value, v, depth + 1);
        LowIsLower(v, MAX_ENCODE_DEPTH - depth - 1);
      case Instance(ms, error, cls) =>
        if IterationFails(g, ms, error, depth) {
          StandsForIsLow(g, Ref(cls), v, depth);
        } else {
          EntriesAreLow(g, ms, |ms|, v.members, depth + 1);
        }
      case _ =>
    }
  }

  lemma {:induction false} LowIsLower(v: Value, n: int)
    requires JsonValue.NestsWithin(v, n)
    ensures JsonValue.NestsWithin(v, n + 1)
    decreases v
  {
    match v
    case Array(items) =>
      forall i | 0 <= i < |items| ensures JsonValue.NestsWithin(items[i], n) {
        LowIsLower(items[i], n - 1);
      }
    case Object(members) =>
      forall i | 0 <= i < |members| ensures JsonValue.NestsWithin(members[i].value, n) {
        LowIsLower(members[i].value, n - 1);
      }
    case _ =>
  }

  lemma {:induction false} EntriesAreLow(g: Graph, ms: seq<Member>, n: nat, es: seq<Entry<Value>>, depth: nat)
    requires Closed(g) && AllKnown(g, ms) && n <= |ms| && MembersStandFor(g, ms, n, es, depth)
    requires 0 < depth <= MAX_ENCODE_DEPTH + 1
    ensures forall i | 0 <= i < |es| :: JsonValue.NestsWithin(es[i].value, MAX_ENCODE_DEPTH - depth)
    decreases Budget(depth), 2, n
  {
    hide StandsFor, Closed, JsonValue.NestsWithin, PlainKey;
    if n > 0 {
      if ms[n - 1].value.Function? {
        EntriesAreLow(g, ms, n - 1, es, depth);
      } else {
        var last := |es| - 1;
        EntriesAreLow(g, ms, n - 1, es[..last], depth);
        StandsForIsLow(g, ms[n - 1].value, es[last].value, depth);
        assert forall i | 0 <= i < last :: es[i] == es[..last][i];
      }
    }
  }

  lemma {:induction false} ValuesAreLow(g: Graph, es: seq<Object>, n: nat, vs: seq<Value>, depth: nat)
    requires Closed(g) && n <= |es| && forall i | 0 <= i < |es| :: Known(g, es[i])
    requires ElementsStandFor(g, es, n, vs, depth) && 0 < depth <= MAX_ENCODE_DEPTH + 1
    ensures forall i | 0 <= i < |vs| :: JsonValue.NestsWithin(vs[i], MAX_ENCODE_DEPTH - depth)
    decreases Budget(depth), 2, n
  {
    hide StandsFor, Closed, JsonValue.NestsWithin;
    if n > 0 {
      var last := |vs| - 1;
      ValuesAreLow(g, es, n - 1, vs[..last], depth);
      StandsForIsLow(g, es[n - 1], vs[last], depth);
      assert forall i | 0 <= i < last :: vs[i] == vs[..last][i];
    }
  }

  /** The encoded text of an object that stands for a value is read as exactly that value, members and elements in
      order, if no two members of one object share a name, and is refused otherwise. */
  lemma EncodedReadsBack(g: Graph, o: Object, v: Value)
    requires Closed(g) && Known(g, o) && StandsFor(g, o, v, 0)
    ensures EncodeObject(g, o, 0).Some?
    ensures var t := EncodeObject(g, o, 0).value;
            Parser.DocumentAt(t) == if JsonValue.WellFormed(v) then Parser.Done(v, |t|) else Parser.Fail
  {
    hide EncodeObject, Closed, StandsFor, Written, Meaning, GoodDoc, Parser.ValueAt, JsonValue.WellFormed;
    hide JsonValue.NestsWithin;
    var d := EncodedIsDocument(g, o, v, 0);
    StandsForIsLow(g, o, v, 0);
    HigherIsEnough(v, MAX_ENCODE_DEPTH, Parser.MAX_NESTING);
    var t := Written(d);
    assert t == [] + [] + Written(d) + [];
    assert t[0..|t|] == t;
    MarkIff(t, [], [], d, []);
    WrittenIsRead(t, 0, d, 0);
  }

  lemma {:induction false} HigherIsEnough(v: Value, n: int, m: int)
    requires JsonValue.NestsWithin(v, n) && n <= m
    ensures JsonValue.NestsWithin(v, m)
    decreases m - n
  {
    hide JsonValue.NestsWithin;
    if n < m {
      LowIsLower(v, n);
      HigherIsEnough(v, n + 1, m);
    }
  }

  // ---------- Every encodable graph of readable data has a tree ----------

  ghost predicate ReadableObject(o: Object) {
    match o
    case Number(text) => exists n :: IsInteger(text, n)
    case Text(data) => Readable(data)
    case _ => true
  }

  ghost predicate ReadableMembers(ms: seq<Member>) {
    forall i | 0 <= i < |ms| :: ReadableObject(ms[i].value) && (ms[i].key.Some? ==> PlainKey(ms[i].key.value))
  }

  ghost predicate ReadableNode(n: Node) {
    match n
    case Table(ms) => ReadableMembers(ms)
    case Array(es) => forall i | 0 <= i < |es| :: ReadableObject(es[i])
    case Blob(data) => Readable(data)
    case SerializesRaw(text, _) => text.Some? ==> exists s :: SpellsString(text.value, s)
    case Serializes(r, _) => r.Some? ==> ReadableObject(r.value)
    case Instance(ms, _, _) => ReadableMembers(ms)
  }

  ghost predicate ReadableGraph(g: Graph) {
    forall id | id in g :: ReadableNode(g[id])
  }

  /** Strings and blobs readable, keys plain, numbers integers: then whatever is encoded stands for a value. */
  lemma {:induction false} EncodedHasTree(g: Graph, o: Object, depth: nat) returns (v: Value)
    requires Closed(g) && Known(g, o) && ReadableGraph(g) && ReadableObject(o) && EncodeObject(g, o, depth).Some?
    ensures StandsFor(g, o, v, depth)
    decreases Budget(depth), Rank(g, o), 2
  {
    hide NodeStandsFor, EncodeNode, Readable, Closed, IsInteger, ReadableGraph;
    match o
    case Null => v := JsonValue.Null;
    case Bool(b) => v := JsonValue.Bool(b);
    case Number(text) =>
      var n :| IsInteger(text, n);
      v := JsonValue.Number(n);
    case Text(data) => v := JsonValue.Str(data);
    case Ref(id) => v := NodeHasTree(g, id, depth);
  }

  lemma {:induction false} NodeHasTree(g: Graph, id: nat, depth: nat) returns (v: Value)
    requires Closed(g) && id in g && ReadableGraph(g) && depth <= MAX_ENCODE_DEPTH && EncodeNode(g, id, depth).Some?
    ensures NodeStandsFor(g, id, v, depth)
    decreases Budget(depth), Rank(g, Ref(id)), 1
  {
    hide StandsFor, EncodeObject, EncodeMembers, EncodeElements, MembersStandFor, ElementsStandFor, Readable, Join;
    hide IterationFails, SpellsString, ReadableObject, ReadableMembers;
    assert NodeKnown(g, g[id]) && ReadableNode(g[id]);
    match g[id]
    case Table(ms) =>
      var es := MembersHaveTrees(g, ms, |ms|, depth + 1);
      v := JsonValue.Object(es);
    case Array(es) =>
      var vs := ElementsHaveTrees(g, es, |es|, depth + 1);
      v := JsonValue.Array(vs);
    case Blob(data) => v := JsonValue.Str(data);
    case SerializesRaw(text, _) =>
      var s :| SpellsString(text.value, s);
      v := JsonValue.Str(s);
    case Serializes(r, _) => v := EncodedHasTree(g, r.value, depth + 1);
    case Instance(ms, error, cls) =>
      var es := MembersHaveTrees(g, ms, |ms|, depth + 1);
      if IterationFails(g, ms, error, depth) {
        assert Standable(g, ms, depth + 1);
        RefIsReadable(cls);
        v := EncodedHasTree(g, Ref(cls), depth);
      } else {
        v := JsonValue.Object(es);
      }
  }

  lemma RefIsReadable(id: nat)
    ensures ReadableObject(Ref(id))
  {
  }

  lemma {:induction false} MembersHaveTrees(g: Graph, ms: seq<Member>, n: nat, depth: nat)
    returns (es: seq<Entry<Value>>)
    requires Closed(g) && AllKnown(g, ms) && n <= |ms| && ReadableGraph(g) && ReadableMembers(ms)
    requires EncodeMembers(g, ms, n, depth).Some?
    ensures MembersStandFor(g, ms, n, es, depth)
    decreases Budget(depth), 2, n
  {
    hide StandsFor, EncodeObject, Closed, ReadableObject, ReadableGraph, PlainKey;
    if n == 0 {
      es := [];
    } else if ms[n - 1].value.Function? {
      es := MembersHaveTrees(g, ms, n - 1, depth);
    } else {
      var before := MembersHaveTrees(g, ms, n - 1, depth);
      var v := EncodedHasTree(g, ms[n - 1].value, depth);
      es := before + [Entry(ms[n - 1].key.value, v)];
      assert es[..|es| - 1] == before;
    }
  }

  lemma {:induction false} ElementsHaveTrees(g: Graph, es: seq<Object>, n: nat, depth: nat) returns (vs: seq<Value>)
    requires Closed(g) && n <= |es| && ReadableGraph(g)
    requires forall i | 0 <= i < |es| :: Known(g, es[i]) && ReadableObject(es[i])
    requires EncodeElements(g, es, n, depth).Some?
    ensures ElementsStandFor(g, es, n, vs, depth)
    decreases Budget(depth), 2, n
  {
    hide StandsFor, EncodeObject, Closed, ReadableObject, ReadableGraph;
    if n == 0 {
      vs := [];
    } else {
      var before := ElementsHaveTrees(g, es, n - 1, depth);
      var v := EncodedHasTree(g, es[n - 1], depth);
      vs := before + [v];
      assert vs[..|vs| - 1] == before;
    }
  }

  // ---------- Which strings are read back ----------

  lemma {:induction false} GoodTextIsPrintable(cs: seq<Char>)
    requires GoodChars(cs)
    ensures forall k | 0 <= k < |CharsText(cs)| :: CharsText(cs)[k] >= 0x20
    decreases |cs|
  {
    hide CharText, GoodChar;
    if cs != [] {
      GoodCharIsPrintable(cs[0]);
      GoodTextIsPrintable(cs[1..]);
    }
  }

  lemma GoodCharIsPrintable(c: Char)
    requires GoodChar(c)
    ensures forall k | 0 <= k < |CharText(c)| :: CharText(c)[k] >= 0x20
  {
  }

  lemma {:induction false} ControlByteIsWritten(data: bytes, k: nat)
    requires k < |data| && 0 < data[k] && !Escapable(data[k])
    ensures data[k] in SquirrelString.BytewiseEscape(data)
    decreases |data|
  {
    if k > 0 {
      ControlByteIsWritten(data[1..], k - 1);
    }
  }

  /** Valid UTF-8 is read back from its quoted text if and only if every control byte in it has a two-character
      escape: the encoder writes the others as they are, which JSON does not allow, and a NUL cuts the string. */
  lemma StringReadsBackIff(data: bytes)
    requires Utf8.ValidRange(data, 0, |data|)
    ensures QuotedText(data).Some?
    ensures var t := QuotedText(data).value;
            Parser.StringAt(t, 0) == Parser.Done(JsonValue.Str(data), |t|)
            <==> forall k | 0 <= k < |data| :: Escapable(data[k])
  {
    hide Utf8.ValidRange, SquirrelString.BytewiseEscape, Parser.StringAt, Escapable;
    SquirrelString.ValidIsEncodedBytewise(data, 0);
    assert data[0..] == data;
    if forall k | 0 <= k < |data| :: Escapable(data[k]) {
      ReadableReadsBack(data);
    }
    if Parser.StringAt(QuotedText(data).value, 0) == Parser.Done(JsonValue.Str(data), |QuotedText(data).value|) {
      ReadBackIsReadable(data);
    }
  }

  lemma ReadableReadsBack(data: bytes)
    requires Readable(data)
    ensures QuotedText(data).Some?
    ensures var t := QuotedText(data).value; Parser.StringAt(t, 0) == Parser.Done(JsonValue.Str(data), |t|)
  {
    hide Readable, QuotedText, StringText, GoodChars, WrittenChars, Stored;
    TextSpells(data);
    var t := QuotedText(data).value;
    assert t[0..|t|] == t;
    StringIsRead(t, 0, WrittenChars(data));
  }

  lemma ReadBackIsReadable(data: bytes)
    requires var t := [QUOTE] + SquirrelString.BytewiseEscape(data) + [QUOTE];
             Parser.StringAt(t, 0) == Parser.Done(JsonValue.Str(data), |t|)
    ensures forall k | 0 <= k < |data| :: Escapable(data[k])
  {
    hide SquirrelString.BytewiseEscape, GoodChars, CharsText, CharsBytes, CString;
    var body := SquirrelString.BytewiseEscape(data);
    var t := [QUOTE] + body + [QUOTE];
    var cs := ReadIsString(t, 0);
    assert t[0..|t|] == t && CharsText(cs) == t[1..|t| - 1] == body;
    GoodTextIsPrintable(cs);
    forall k | 0 <= k < |data| ensures Escapable(data[k]) {
      assert data[k] in data && NulFree(data);
      if !Escapable(data[k]) {
        ControlByteIsWritten(data, k);
      }
    }
  }

  /** The control byte 1 is written as it is, and the parser refuses it. */
  lemma ControlByteIsRefused()
    ensures QuotedText([0x01]) == Some([QUOTE, 0x01, QUOTE]) && Parser.StringAt([QUOTE, 0x01, QUOTE], 0) == Parser.Fail
  {
    hide Parser.StringAt;
    var data := [0x01];
    assert SquirrelString.EncodedFrom(data, 1) == Some([]) && SquirrelString.AsciiEscape(0x01) == [0x01];
    assert [0x01] + [] == data && SquirrelString.EncodedFrom(data, 0) == Some(data);
    assert [QUOTE] + data + [QUOTE] == [QUOTE, 0x01, QUOTE];
    ControlByteFails();
  }

  lemma ControlByteFails()
    ensures Parser.StringAt([QUOTE, 0x01, QUOTE], 0) == Parser.Fail
  {
    hide CharsText, CharsBytes, GoodChars, CString;
    var t: bytes := [QUOTE, 0x01, QUOTE];
    if Parser.StringAt(t, 0).Done? {
      var cs := ReadIsString(t, 0);
      GoodTextIsPrintable(cs);
      OccursAt(t, 0, StringText(cs), 1);
    }
  }
}
