/** Pretty printing what the Squirrel encoder writes: which object graphs print faithfully. */
module PrettyEncoded {
  import opened Bytes
  import opened PrettyPrint
  import opened SquirrelEncoder
  import opened EncoderLaws
  import opened TextScan
  import SquirrelString

  // ---------- What ends up in the output ----------

  /** The steps whose texts stay in the output: an instance whose iteration fails contributes its class
      only, any other instance its members. */
  ghost predicate Emits(g: Graph, a: Object, b: Object, deeper: bool, depth: nat)
    requires Closed(g)
  {
    && Leads(g, a, b, deeper, depth)
    && (g[a.id].Instance? && deeper ==> !IterationFails(g, g[a.id].members, g[a.id].error, depth))
  }

  ghost predicate IsOutput(g: Graph, o: Object, w: Walk, depth: nat)
    requires Closed(g)
    decreases w
  {
    w.Via? ==> Emits(g, o, w.next, w.deeper, depth) && IsOutput(g, w.next, w.rest, Below(depth, w.deeper))
  }

  ghost predicate IsKey(ms: seq<Member>, body: bytes) {
    exists i | 0 <= i < |ms| :: !ms[i].value.Function? && ms[i].key == Some(body)
  }

  /** What this object itself writes between quotes: its string or blob, its keys or its raw text. */
  ghost predicate Quotes(g: Graph, o: Object, depth: nat, body: bytes)
    requires Closed(g)
  {
    match o
    case Text(data) => SquirrelString.EncodedFrom(data, 0) == Some(body)
    case Ref(id) => id in g && depth <= MAX_ENCODE_DEPTH && NodeKnown(g, g[id]) && NodeQuotes(g, id, depth, body)
    case _ => false
  }

  ghost predicate NodeQuotes(g: Graph, id: nat, depth: nat, body: bytes)
    requires Closed(g) && id in g && depth <= MAX_ENCODE_DEPTH && NodeKnown(g, g[id])
  {
    match g[id]
    case Table(ms) => IsKey(ms, body)
    case Blob(data) => SquirrelString.EncodedFrom(data, 0) == Some(body)
    case SerializesRaw(text, _) => text == Some(body)
    case Instance(ms, error, _) => !IterationFails(g, ms, error, depth) && IsKey(ms, body)
    case _ => false
  }

  /** Every quoted text the object itself writes is a string body, and its number holds nothing but digits and
      the like. */
  ghost predicate Tidy(g: Graph, o: Object, depth: nat)
    requires Closed(g)
  {
    (o.Number? ==> NumberLike(o.text)) && forall body | Quotes(g, o, depth, body) :: StringBody(body)
  }

  ghost predicate TidyOutput(g: Graph, o: Object, depth: nat)
    requires Closed(g)
  {
    forall w | IsOutput(g, o, w, depth) :: Tidy(g, End(o, w), depth + Deeper(w))
  }

  /** The object itself writes a quoted text that ends in a backslash. */
  ghost predicate Trails(g: Graph, o: Object, depth: nat)
    requires Closed(g)
  {
    exists body :: Quotes(g, o, depth, body) && EndsInBackslash(body)
  }

  /** No quoted text in the output ends in a backslash. */
  ghost predicate NothingTrails(g: Graph, o: Object, depth: nat)
    requires Closed(g)
  {
    forall w | IsOutput(g, o, w, depth) :: !Trails(g, End(o, w), depth + Deeper(w))
  }

  lemma OutputHere(g: Graph, o: Object, depth: nat)
    requires Closed(g)
    ensures TidyOutput(g, o, depth) ==> Tidy(g, o, depth)
    ensures NothingTrails(g, o, depth) ==> !Trails(g, o, depth)
  {
    assert IsOutput(g, o, Here, depth);
    assert End(o, Here) == o && Deeper(Here) == 0;
  }

  lemma OutputBelow(g: Graph, a: Object, b: Object, deeper: bool, depth: nat)
    requires Closed(g) && Emits(g, a, b, deeper, depth)
    ensures TidyOutput(g, a, depth) ==> TidyOutput(g, b, Below(depth, deeper))
    ensures NothingTrails(g, a, depth) ==> NothingTrails(g, b, Below(depth, deeper))
  {
    hide Emits, Tidy, Trails;
    forall w | IsOutput(g, b, w, Below(depth, deeper))
      ensures TidyOutput(g, a, depth) ==> Tidy(g, End(b, w), Below(depth, deeper) + Deeper(w))
      ensures NothingTrails(g, a, depth) ==> !Trails(g, End(b, w), Below(depth, deeper) + Deeper(w))
    {
      var longer := Via(deeper, b, w);
      assert IsOutput(g, a, longer, depth);
      assert End(a, longer) == End(b, w) && depth + Deeper(longer) == Below(depth, deeper) + Deeper(w);
    }
  }

  /** If something trails and it is not the object itself, it is in the output of a next one. */
  lemma TrailsBelow(g: Graph, a: Object, depth: nat) returns (b: Object, deeper: bool)
    requires Closed(g) && !NothingTrails(g, a, depth) && !Trails(g, a, depth)
    ensures Emits(g, a, b, deeper, depth) && !NothingTrails(g, b, Below(depth, deeper))
  {
    hide Emits, Trails;
    var w :| IsOutput(g, a, w, depth) && Trails(g, End(a, w), depth + Deeper(w));
    b, deeper := w.next, w.deeper;
    assert IsOutput(g, b, w.rest, Below(depth, deeper));
  }

  // ---------- Which graphs are tidy ----------

  ghost predicate PlainObject(o: Object) {
    match o
    case Number(text) => NumberLike(text)
    case Text(data) => PlainGroups(data, 0)
    case _ => true
  }

  ghost predicate PlainMembers(ms: seq<Member>) {
    forall i | 0 <= i < |ms| :: PlainObject(ms[i].value) && (ms[i].key.Some? ==> Unquoted(ms[i].key.value))
  }

  /** Keys and raw texts hold no quote and no backslash, and no multi-byte group takes one along. */
  ghost predicate PlainNode(n: Node) {
    match n
    case Table(ms) => PlainMembers(ms)
    case Array(es) => forall i | 0 <= i < |es| :: PlainObject(es[i])
    case Blob(data) => PlainGroups(data, 0)
    case SerializesRaw(text, _) => text.Some? ==> Unquoted(text.value)
    case Serializes(r, _) => r.Some? ==> PlainObject(r.value)
    case Instance(ms, _, _) => PlainMembers(ms)
  }

  ghost predicate PlainGraph(g: Graph) {
    forall id | id in g :: PlainNode(g[id])
  }

  /** Plain data is tidy wherever the encoding meets it. */
  lemma PlainGraphIsTidy(g: Graph, o: Object, depth: nat)
    requires Closed(g) && PlainGraph(g) && PlainObject(o)
    ensures TidyOutput(g, o, depth)
  {
    hide PlainGraph, PlainObject, Tidy;
    forall w | IsOutput(g, o, w, depth) ensures Tidy(g, End(o, w), depth + Deeper(w)) {
      OutputIsPlain(g, o, w, depth);
      PlainIsTidy(g, End(o, w), depth + Deeper(w));
    }
  }

  lemma {:induction false} OutputIsPlain(g: Graph, o: Object, w: Walk, depth: nat)
    requires Closed(g) && PlainGraph(g) && PlainObject(o) && IsOutput(g, o, w, depth)
    ensures PlainObject(End(o, w))
    decreases w
  {
    hide Closed, PlainObject, PlainGraph, Emits;
    if w.Via? {
      StepIsPlain(g, o, w.next, w.deeper, depth);
      OutputIsPlain(g, w.next, w.rest, Below(depth, w.deeper));
    }
  }

  lemma StepIsPlain(g: Graph, a: Object, b: Object, deeper: bool, depth: nat)
    requires Closed(g) && PlainGraph(g) && Emits(g, a, b, deeper, depth)
    ensures PlainObject(b)
  {
    hide IterationFails, NumberLike, PlainGroups;
    assert PlainNode(g[a.id]);
  }

  lemma PlainIsTidy(g: Graph, o: Object, depth: nat)
    requires Closed(g) && PlainGraph(g) && PlainObject(o)
    ensures Tidy(g, o, depth)
  {
    hide IterationFails, NumberLike, PlainGroups, Unquoted, StringBody, SquirrelString.EncodedFrom;
    forall body | Quotes(g, o, depth, body) ensures StringBody(body) {
      assert o.Ref? ==> PlainNode(g[o.id]);
      if o.Text? {
        PlainGroupsGiveBody(o.data, 0);
      } else if g[o.id].Blob? {
        PlainGroupsGiveBody(g[o.id].data, 0);
      } else {
        UnquotedIsBody(body);
      }
    }
  }

  // ---------- The encoder's output ----------

  ghost predicate All(goods: seq<bool>) {
    forall i | 0 <= i < |goods| :: goods[i]
  }

  ghost predicate Verdicts(strict: bool, parts: seq<bytes>, goods: seq<bool>) {
    |parts| == |goods| && forall i | 0 <= i < |parts| :: Verdict(strict, parts[i], goods[i])
  }

  lemma {:induction false} JoinVerdict(strict: bool, parts: seq<bytes>, goods: seq<bool>)
    requires Verdicts(strict, parts, goods)
    ensures Verdict(strict, Join(parts), All(goods))
    decreases |parts|
  {
    hide Verdict;
    if |parts| == 0 {
      NothingIsGood(strict);
    } else if |parts| == 1 {
      assert All(goods) == goods[0];
    } else {
      var n := |parts| - 1;
      JoinVerdict(strict, parts[..n], goods[..n]);
      CommaIsGood(strict);
      VerdictConcat(strict, Join(parts[..n]), All(goods[..n]), [COMMA], true);
      VerdictConcat(strict, Join(parts[..n]) + [COMMA], All(goods[..n]), parts[n], goods[n]);
      assert goods == goods[..n] + [goods[n]];
      assert All(goods) == (All(goods[..n]) && goods[n]);
    }
  }

  lemma NothingIsGood(strict: bool)
    ensures Verdict(strict, [], true)
  {
    NeatNothing(strict, Outside);
  }

  lemma CommaIsGood(strict: bool)
    ensures Verdict(strict, [COMMA], true)
  {
    NeatByte(strict, COMMA, Outside);
  }

  lemma TokensAreGood(strict: bool)
    ensures Verdict(strict, NULL_TOKEN, true) && Verdict(strict, TRUE_TOKEN, true) && Verdict(strict, FALSE_TOKEN, true)
  {
    hide Neat;
    NeatBytes(strict, NULL_TOKEN, Outside);
    NeatBytes(strict, TRUE_TOKEN, Outside);
    NeatBytes(strict, FALSE_TOKEN, Outside);
  }

  lemma NumberIsGood(strict: bool, text: bytes)
    requires NumberLike(text)
    ensures Verdict(strict, text, true)
  {
    NeatBytes(strict, text, Outside);
  }

  lemma KeyVerdict(strict: bool, key: bytes)
    requires StringBody(key)
    ensures Verdict(strict, KeyText(key), !EndsInBackslash(key))
  {
    hide Verdict, StringBody;
    QuotedBodyVerdict(strict, key);
    ColonIsGood(strict);
    VerdictConcat(strict, [QUOTE] + key + [QUOTE], !EndsInBackslash(key), [COLON], true);
    assert KeyText(key) == [QUOTE] + key + [QUOTE] + [COLON];
  }

  lemma ColonIsGood(strict: bool)
    ensures Verdict(strict, [COLON], true)
  {
    NeatByte(strict, COLON, Outside);
  }

  lemma EnclosedVerdict(strict: bool, open: byte, parts: seq<bytes>, goods: seq<bool>, close: byte)
    requires Opens(open) && Closes(close) && Verdicts(strict, parts, goods)
    ensures Verdict(strict, Enclosed(open, Some(parts), close).value, All(goods))
  {
    hide Verdict, Verdicts, All, Join;
    JoinVerdict(strict, parts, goods);
    VerdictEnclosed(strict, open, Join(parts), All(goods), close);
  }

  /** The text of an object is good exactly if nothing in its output trails. */
  lemma {:induction false} ObjectVerdict(strict: bool, g: Graph, o: Object, depth: nat)
    requires Closed(g) && Known(g, o) && TidyOutput(g, o, depth) && EncodeObject(g, o, depth).Some?
    ensures Verdict(strict, EncodeObject(g, o, depth).value, NothingTrails(g, o, depth))
    decreases Budget(depth), Rank(g, o), 2
  {
    hide Verdict, EncodeNode, Closed, SquirrelString.EncodedFrom, NumberLike, NodeQuotes, TidyOutput, NothingTrails;
    hide StringBody;
    OutputHere(g, o, depth);
    if o.Ref? {
      NodeVerdict(strict, g, o.id, depth);
    } else {
      match o
      case Number(text) =>
        LeafTrails(g, o, depth);
        NumberIsGood(strict, text);
      case Text(data) => LeafVerdict(strict, g, o, depth, SquirrelString.EncodedFrom(data, 0).value);
      case _ =>
        LeafTrails(g, o, depth);
        TokensAreGood(strict);
    }
  }

  lemma LeafTrails(g: Graph, o: Object, depth: nat)
    requires Closed(g)
    requires o.Ref? ==> o.id in g && (g[o.id].Blob? || g[o.id].SerializesRaw?)
    ensures NothingTrails(g, o, depth) <==> !Trails(g, o, depth)
  {
    hide Trails, NothingTrails;
    OutputHere(g, o, depth);
    if !NothingTrails(g, o, depth) && !Trails(g, o, depth) {
      var b, deeper := TrailsBelow(g, o, depth);
    }
  }

  /** A leaf that writes one quoted text. */
  lemma LeafVerdict(strict: bool, g: Graph, o: Object, depth: nat, body: bytes)
    requires Closed(g) && Tidy(g, o, depth)
    requires o.Ref? ==> o.id in g && (g[o.id].Blob? || g[o.id].SerializesRaw?)
    requires Quotes(g, o, depth, body) && forall other | Quotes(g, o, depth, other) :: other == body
    ensures Verdict(strict, [QUOTE] + body + [QUOTE], NothingTrails(g, o, depth))
  {
    hide Verdict, StringBody, NothingTrails, Quotes;
    LeafTrails(g, o, depth);
    QuotedBodyVerdict(strict, body);
  }

  lemma {:induction false} NodeVerdict(strict: bool, g: Graph, id: nat, depth: nat)
    requires Closed(g) && id in g && depth <= MAX_ENCODE_DEPTH && TidyOutput(g, Ref(id), depth)
    requires EncodeNode(g, id, depth).Some?
    ensures Verdict(strict, EncodeNode(g, id, depth).value, NothingTrails(g, Ref(id), depth))
    decreases Budget(depth), Rank(g, Ref(id)), 1
  {
    hide Verdict, EncodeObject, EncodeMembers, EncodeElements, SquirrelString.EncodedFrom, Join, StringBody;
    hide IterationFails, TidyOutput, NothingTrails;
    assert NodeKnown(g, g[id]);
    OutputHere(g, Ref(id), depth);
    match g[id]
    case Table(ms) =>
      TableVerdict(strict, g, id, ms, depth);
    case Array(es) =>
      ArrayVerdict(strict, g, id, depth);
    case Blob(data) =>
      LeafVerdict(strict, g, Ref(id), depth, SquirrelString.EncodedFrom(data, 0).value);
    case SerializesRaw(text, _) =>
      LeafVerdict(strict, g, Ref(id), depth, text.value);
    case Serializes(r, _) =>
      OnlyOneBelow(g, id, r.value, true, depth);
      ObjectVerdict(strict, g, r.value, depth + 1);
    case Instance(ms, error, cls) =>
      if IterationFails(g, ms, error, depth) {
        OnlyOneBelow(g, id, Ref(cls), false, depth);
        ObjectVerdict(strict, g, Ref(cls), depth);
      } else {
        TableVerdict(strict, g, id, ms, depth);
      }
  }

  /** Where the output of a node is that of one next object. */
  lemma OnlyOneBelow(g: Graph, id: nat, b: Object, deeper: bool, depth: nat)
    requires Closed(g) && Emits(g, Ref(id), b, deeper, depth) && !Trails(g, Ref(id), depth)
    requires forall b', deeper' | Emits(g, Ref(id), b', deeper', depth) :: b' == b && deeper' == deeper
    ensures NothingTrails(g, Ref(id), depth) <==> NothingTrails(g, b, Below(depth, deeper))
    ensures TidyOutput(g, Ref(id), depth) ==> TidyOutput(g, b, Below(depth, deeper))
  {
    hide Emits, Trails, NothingTrails, TidyOutput;
    OutputBelow(g, Ref(id), b, deeper, depth);
    if !NothingTrails(g, Ref(id), depth) {
      var b', deeper' := TrailsBelow(g, Ref(id), depth);
    }
  }

  /** The node's output is that of its members. */
  ghost predicate WritesMembers(g: Graph, id: nat, ms: seq<Member>, depth: nat)
    requires Closed(g)
  {
    id in g && depth <= MAX_ENCODE_DEPTH && NodeKnown(g, g[id]) &&
    match g[id]
    case Table(ms') => ms' == ms
    case Instance(ms', error, _) => ms' == ms && !IterationFails(g, ms, error, depth)
    case _ => false
  }

  lemma {:induction false} TableVerdict(strict: bool, g: Graph, id: nat, ms: seq<Member>, depth: nat)
    requires Closed(g) && WritesMembers(g, id, ms, depth) && TidyOutput(g, Ref(id), depth)
    requires AllKnown(g, ms) && EncodeMembers(g, ms, |ms|, depth + 1).Some?
    ensures Verdict(strict, Enclosed(LBRACE, EncodeMembers(g, ms, |ms|, depth + 1), RBRACE).value,
                    NothingTrails(g, Ref(id), depth))
    decreases Budget(depth), 0, 0
  {
    hide Verdict, Verdicts, All, TidyOutput, NothingTrails, EncodeMembers, Enclosed, StringBody;
    KeysAreBodies(g, id, ms, depth);
    forall i | 0 <= i < |ms| && !ms[i].value.Function? ensures TidyOutput(g, ms[i].value, depth + 1) {
      assert HasValue(ms, ms[i].value);
      OutputBelow(g, Ref(id), ms[i].value, true, depth);
    }
    var goods := MembersVerdict(strict, g, ms, |ms|, depth + 1);
    TableTrails(g, id, ms, depth);
    EnclosedVerdict(strict, LBRACE, EncodeMembers(g, ms, |ms|, depth + 1).value, goods, RBRACE);
  }

  ghost predicate BodyKeys(ms: seq<Member>) {
    forall i | 0 <= i < |ms| :: !ms[i].value.Function? && ms[i].key.Some? ==> StringBody(ms[i].key.value)
  }

  lemma KeysAreBodies(g: Graph, id: nat, ms: seq<Member>, depth: nat)
    requires Closed(g) && WritesMembers(g, id, ms, depth) && TidyOutput(g, Ref(id), depth)
    ensures BodyKeys(ms)
  {
    hide TidyOutput, StringBody, IterationFails;
    OutputHere(g, Ref(id), depth);
    forall i | 0 <= i < |ms| && !ms[i].value.Function? && ms[i].key.Some? ensures StringBody(ms[i].key.value) {
      assert IsKey(ms, ms[i].key.value);
      assert Quotes(g, Ref(id), depth, ms[i].key.value);
    }
  }

  ghost predicate MemberFine(g: Graph, m: Member, depth: nat)
    requires Closed(g)
  {
    m.value.Function? || ((m.key.Some? ==> !EndsInBackslash(m.key.value)) && NothingTrails(g, m.value, depth))
  }

  ghost predicate MembersFine(g: Graph, ms: seq<Member>, n: nat, depth: nat)
    requires Closed(g) && n <= |ms|
  {
    forall i | 0 <= i < n :: MemberFine(g, ms[i], depth)
  }

  lemma TableTrails(g: Graph, id: nat, ms: seq<Member>, depth: nat)
    requires Closed(g) && WritesMembers(g, id, ms, depth)
    ensures NothingTrails(g, Ref(id), depth) <==> MembersFine(g, ms, |ms|, depth + 1)
  {
    hide NothingTrails, IterationFails;
    if NothingTrails(g, Ref(id), depth) {
      OutputHere(g, Ref(id), depth);
      forall i | 0 <= i < |ms| && !ms[i].value.Function? ensures MemberFine(g, ms[i], depth + 1) {
        assert HasValue(ms, ms[i].value);
        OutputBelow(g, Ref(id), ms[i].value, true, depth);
        assert ms[i].key.Some? ==> IsKey(ms, ms[i].key.value) && Quotes(g, Ref(id), depth, ms[i].key.value);
      }
    } else if Trails(g, Ref(id), depth) {
      var body :| Quotes(g, Ref(id), depth, body) && EndsInBackslash(body);
      var i :| 0 <= i < |ms| && !ms[i].value.Function? && ms[i].key == Some(body);
      assert !MemberFine(g, ms[i], depth + 1);
    } else {
      var b, deeper := TrailsBelow(g, Ref(id), depth);
      var i :| 0 <= i < |ms| && ms[i].value == b;
      assert !MemberFine(g, ms[i], depth + 1);
    }
  }

  lemma {:induction false} MembersVerdict(strict: bool, g: Graph, ms: seq<Member>, n: nat, depth: nat)
    returns (goods: seq<bool>)
    requires Closed(g) && AllKnown(g, ms) && BodyKeys(ms) && n <= |ms|
    requires forall i | 0 <= i < |ms| :: !ms[i].value.Function? ==> TidyOutput(g, ms[i].value, depth)
    requires EncodeMembers(g, ms, n, depth).Some?
    ensures Verdicts(strict, EncodeMembers(g, ms, n, depth).value, goods)
    ensures All(goods) <==> MembersFine(g, ms, n, depth)
    decreases Budget(depth), 2, n
  {
    hide Verdict, EncodeObject, Closed, TidyOutput, NothingTrails, StringBody, EndsInBackslash, KeyText;
    if n == 0 {
      goods := [];
    } else {
      var before := MembersVerdict(strict, g, ms, n - 1, depth);
      var m := ms[n - 1];
      if m.value.Function? {
        goods := before;
      } else {
        var fine := !EndsInBackslash(m.key.value);
        KeyVerdict(strict, m.key.value);
        ObjectVerdict(strict, g, m.value, depth);
        var below := NothingTrails(g, m.value, depth);
        VerdictConcat(strict, KeyText(m.key.value), fine, EncodeObject(g, m.value, depth).value, below);
        var good := fine && below;
        goods := before + [good];
        AllExtended(before, good);
      }
    }
  }

  lemma AllExtended(goods: seq<bool>, good: bool)
    ensures All(goods + [good]) <==> All(goods) && good
  {
    if All(goods + [good]) {
      assert (goods + [good])[|goods|] == good;
      assert forall i | 0 <= i < |goods| :: (goods + [good])[i] == goods[i];
    }
  }

  lemma {:induction false} ArrayVerdict(strict: bool, g: Graph, id: nat, depth: nat)
    requires Closed(g) && id in g && g[id].Array? && depth <= MAX_ENCODE_DEPTH && TidyOutput(g, Ref(id), depth)
    requires NodeKnown(g, g[id]) && EncodeElements(g, g[id].elements, |g[id].elements|, depth + 1).Some?
    ensures var es := g[id].elements;
            Verdict(strict, Enclosed(LBRACKET, EncodeElements(g, es, |es|, depth + 1), RBRACKET).value,
                    NothingTrails(g, Ref(id), depth))
    decreases Budget(depth), 0, 0
  {
    hide Verdict, Verdicts, All, TidyOutput, NothingTrails, EncodeElements, Enclosed;
    var es := g[id].elements;
    forall i | 0 <= i < |es| ensures TidyOutput(g, es[i], depth + 1) {
      assert Emits(g, Ref(id), es[i], true, depth);
      OutputBelow(g, Ref(id), es[i], true, depth);
    }
    var goods := ElementsVerdict(strict, g, es, |es|, depth + 1);
    ArrayTrails(g, id, depth);
    EnclosedVerdict(strict, LBRACKET, EncodeElements(g, es, |es|, depth + 1).value, goods, RBRACKET);
  }

  ghost predicate ElementsFine(g: Graph, es: seq<Object>, n: nat, depth: nat)
    requires Closed(g) && n <= |es|
  {
    forall i | 0 <= i < n :: NothingTrails(g, es[i], depth)
  }

  lemma ArrayTrails(g: Graph, id: nat, depth: nat)
    requires Closed(g) && id in g && g[id].Array? && depth <= MAX_ENCODE_DEPTH && NodeKnown(g, g[id])
    ensures NothingTrails(g, Ref(id), depth) <==> ElementsFine(g, g[id].elements, |g[id].elements|, depth + 1)
  {
    hide NothingTrails;
    var es := g[id].elements;
    if NothingTrails(g, Ref(id), depth) {
      forall i | 0 <= i < |es| ensures NothingTrails(g, es[i], depth + 1) {
        assert Emits(g, Ref(id), es[i], true, depth);
        OutputBelow(g, Ref(id), es[i], true, depth);
      }
    } else {
      var b, deeper := TrailsBelow(g, Ref(id), depth);
    }
  }

  lemma {:induction false} ElementsVerdict(strict: bool, g: Graph, es: seq<Object>, n: nat, depth: nat)
    returns (goods: seq<bool>)
    requires Closed(g) && n <= |es|
    requires forall i | 0 <= i < |es| :: Known(g, es[i]) && TidyOutput(g, es[i], depth)
    requires EncodeElements(g, es, n, depth).Some?
    ensures Verdicts(strict, EncodeElements(g, es, n, depth).value, goods)
    ensures All(goods) <==> ElementsFine(g, es, n, depth)
    decreases Budget(depth), 2, n
  {
    hide Verdict, EncodeObject, Closed, TidyOutput, NothingTrails;
    if n == 0 {
      goods := [];
    } else {
      var before := ElementsVerdict(strict, g, es, n - 1, depth);
      ObjectVerdict(strict, g, es[n - 1], depth);
      var good := NothingTrails(g, es[n - 1], depth);
      goods := before + [good];
      AllExtended(before, good);
    }
  }

  // ---------- When encoder output prints faithfully ----------

  /** Tidy output is balanced. It is clean, and the printer tracks it, if and only if none of the strings,
      blobs, keys and raw texts that are written ends in a backslash. */
  lemma EncodedTracksIff(g: Graph, o: Object)
    requires Closed(g) && Known(g, o) && TidyOutput(g, o, 0) && EncodeObject(g, o, 0).Some?
    ensures var t := EncodeObject(g, o, 0).value;
            && Nesting(t, |t|) == 0 && LexAt(t, |t|) == Outside
            && (Clean(t) <==> NothingTrails(g, o, 0))
            && (Tracks(t, 0, START) <==> NothingTrails(g, o, 0))
  {
    hide EncodeObject, Closed, TidyOutput, NothingTrails, Scanned, Tracks, Trackable, Misread, CleanAt;
    var t := EncodeObject(g, o, 0).value;
    ObjectVerdict(false, g, o, 0);
    ObjectVerdict(true, g, o, 0);
    VerdictMeans(t, NothingTrails(g, o, 0));
    CompactTracksIff(t, 0);
    TracksIff(t);
  }

  lemma VerdictMeans(t: bytes, good: bool)
    requires Verdict(false, t, good) && Verdict(true, t, good)
    ensures Nesting(t, |t|) == 0 && LexAt(t, |t|) == Outside && Compact(t)
    ensures Clean(t) <==> good
    ensures Clean(t) <==> forall j | 0 <= j < |t| :: !Misread(t, j)
  {
    hide Scanned, CleanAt, Misread;
    assert NeatFrom(false, t, Outside, 0, 0);
    assert t[..|t|] == t;
    ScanReaches(false, t, |t|);
    forall i | 0 <= i < |t| ensures CleanAt(t, i) <==> !Misread(t, i) {
      ScanReaches(false, t, i);
    }
    forall i | 0 <= i < |t| ensures LexAt(t, i).Outside? ==> !IsBlank(t[i]) {
      ScanReaches(false, t, i);
      CleanOrMisread(t, i);
    }
    if good {
      assert NeatFrom(true, t, Outside, 0, 0);
      forall i | 0 <= i < |t| ensures CleanAt(t, i) {
        ScanReaches(true, t, i);
      }
    } else {
      assert StopsFrom(t, 0, 0);
      if Clean(t) {
        CleanScans(t, |t|);
        assert false;
      }
    }
  }

  lemma CleanOrMisread(t: bytes, i: nat)
    requires i < |t| && (CleanAt(t, i) <==> !Misread(t, i))
    ensures LexAt(t, i).Outside? ==> !IsBlank(t[i])
  {
  }

  /** Whenever the output is tidy and nothing in it ends in a backslash, it can be printed, and without the
      added blanks the print is what was encoded. */
  lemma PlainGraphsPrintFaithfully(g: Graph, o: Object)
    requires Closed(g) && Known(g, o) && TidyOutput(g, o, 0) && NothingTrails(g, o, 0) && EncodeObject(g, o, 0).Some?
    ensures var t := EncodeObject(g, o, 0).value;
            Clean(t) && Safe(t, 0, START) && Erase(Layout(t, 0, START), Outside) == t
  {
    hide EncodeObject, Closed, TidyOutput, NothingTrails, Layout, Safe, Erase, Clean, Tracks;
    EncodedTracksIff(g, o);
    PrettyTextErases(EncodeObject(g, o, 0).value);
  }

  /** The print operation. */
  method PrintObject(g: Graph, o: Object, vm: Machine) returns (pretty: Option<bytes>)
    requires Closed(g) && Known(g, o)
    requires EncodeObject(g, o, 0).Some? ==> Safe(EncodeObject(g, o, 0).value, 0, START)
    modifies vm
    ensures pretty == match EncodeObject(g, o, 0)
                      case None => None
                      case Some(t) => Some(Layout(t, 0, START) + [0])
  {
    hide EncodeObject, Closed, Layout, Safe;
    var text := Encode(g, o, vm);
    if text.None? {
      return None;
    }
    var p := Print(text.value);
    return Some(p);
  }

  // ---------- Where printing goes wrong ----------

  /** A string that ends in a backslash: the printer stays in quotes, takes the next string for
      structure, and its indent level falls below zero. */
  lemma BackslashAtEndMisleads()
    ensures var g: Graph := map[0 := Array([Text([BACKSLASH]), Text([RBRACKET, RBRACKET])])];
            var t := [LBRACKET, QUOTE, BACKSLASH, BACKSLASH, QUOTE, COMMA, QUOTE, RBRACKET, RBRACKET, QUOTE, RBRACKET];
            Closed(g) && EncodeObject(g, Ref(0), 0) == Some(t) && !Safe(t, 0, START)
  {
    hide EncodeObject, QuotedText, Safe, Closed;
    QuotedAscii([BACKSLASH], [BACKSLASH, BACKSLASH]);
    QuotedAscii([RBRACKET, RBRACKET], [RBRACKET, RBRACKET]);
    var a, b := [QUOTE, BACKSLASH, BACKSLASH, QUOTE], [QUOTE, RBRACKET, RBRACKET, QUOTE];
    assert [QUOTE] + [BACKSLASH, BACKSLASH] + [QUOTE] == a;
    assert [QUOTE] + [RBRACKET, RBRACKET] + [QUOTE] == b;
    PairOfTexts([BACKSLASH], [RBRACKET, RBRACKET], a, b);
    var t := [LBRACKET, QUOTE, BACKSLASH, BACKSLASH, QUOTE, COMMA, QUOTE, RBRACKET, RBRACKET, QUOTE, RBRACKET];
    assert t == [LBRACKET] + (a + [COMMA] + b) + [RBRACKET];
    UnsafeAtEight(t);
  }

  lemma PairOfTexts(x: bytes, y: bytes, a: bytes, b: bytes)
    requires QuotedText(x) == Some(a) && QuotedText(y) == Some(b)
    ensures var g: Graph := map[0 := Array([Text(x), Text(y)])];
            Closed(g) && EncodeObject(g, Ref(0), 0) == Some([LBRACKET] + (a + [COMMA] + b) + [RBRACKET])
  {
    hide QuotedText;
    var es := [Text(x), Text(y)];
    var g: Graph := map[0 := Array(es)];
    assert EncodeElements(g, es, 0, 1) == Some([]);
    assert es[0] == Text(x) && es[1] == Text(y);
    assert EncodeObject(g, Text(x), 1) == Some(a) && EncodeObject(g, Text(y), 1) == Some(b);
    assert [] + [a] == [a] && [a] + [b] == [a, b];
    assert EncodeElements(g, es, 1, 1) == Some([a]);
    assert EncodeElements(g, es, 2, 1) == Some([a, b]);
    assert [a, b][..1] == [a];
    assert Join([a, b]) == a + [COMMA] + b;
    assert EncodeNode(g, 0, 0) == Some([LBRACKET] + (a + [COMMA] + b) + [RBRACKET]);
  }

  lemma QuotedAscii(data: bytes, body: bytes)
    requires |data| == 1 || |data| == 2
    requires forall k | 0 <= k < |data| :: data[k] < 0x80
    requires body == if |data| == 1 then SquirrelString.AsciiEscape(data[0])
                     else SquirrelString.AsciiEscape(data[0]) + SquirrelString.AsciiEscape(data[1])
    ensures QuotedText(data) == Some([QUOTE] + body + [QUOTE])
  {
    hide SquirrelString.AsciiEscape;
    assert SquirrelString.EncodedFrom(data, |data|) == Some([]);
    var e := SquirrelString.AsciiEscape(data[|data| - 1]);
    assert e + [] == e;
    assert SquirrelString.EncodedFrom(data, |data| - 1) == Some(e);
  }

  lemma UnsafeAtEight(t: bytes)
    requires t == [LBRACKET, QUOTE, BACKSLASH, BACKSLASH, QUOTE, COMMA, QUOTE, RBRACKET, RBRACKET, QUOTE, RBRACKET]
    ensures !Safe(t, 0, START)
  {
    assert !Safe(t, 8, State(false, 0, RBRACKET));
    assert !Safe(t, 7, State(false, 1, QUOTE));
    assert !Safe(t, 6, State(true, 1, COMMA));
    assert !Safe(t, 5, State(true, 1, QUOTE));
    assert !Safe(t, 4, State(true, 1, BACKSLASH));
    assert !Safe(t, 3, State(true, 1, BACKSLASH));
    assert !Safe(t, 2, State(true, 1, QUOTE));
    assert !Safe(t, 1, State(false, 1, LBRACKET));
  }

  /** A quote behind two backslashes that the text reads as one escape. */
  lemma EscapedBackslashMisleads(t: bytes, i: nat)
    requires i + 3 < |t| && t[i..i + 4] == [QUOTE, BACKSLASH, BACKSLASH, QUOTE] && i <= 1
    requires i == 1 ==> t[0] == LBRACE
    ensures !Tracks(t, 0, START)
  {
    hide Tracks;
    TracksIff(t);
    var s := t[i..i + 4];
    assert t[i] == s[0] && t[i + 1] == s[1] && t[i + 2] == s[2] && t[i + 3] == s[3];
    assert LexAt(t, i) == Outside;
    assert LexAt(t, i + 1) == Inside && LexAt(t, i + 2) == Escaped && LexAt(t, i + 3) == Inside;
    assert !Trackable(t, i + 3, BACKSLASH);
    assert !Trackable(t, i + 2, BACKSLASH);
    assert !Trackable(t, i + 1, QUOTE);
    assert !Trackable(t, i, if i == 0 then 0 else LBRACE);
  }

  /** A key that is written as an escaped backslash misleads the printer, too. */
  lemma BackslashKeyMisleads()
    ensures var g: Graph := map[0 := Table([Member(Some([BACKSLASH, BACKSLASH]), Null, None)])];
            Closed(g) && EncodeObject(g, Ref(0), 0).Some? && !Tracks(EncodeObject(g, Ref(0), 0).value, 0, START)
  {
    hide EncodeObject, Tracks;
    var key := [BACKSLASH, BACKSLASH];
    var g: Graph := map[0 := Table([Member(Some(key), Null, None)])];
    assert Closed(g);
    OneMemberTable(g, 0, key);
    var t := EncodeObject(g, Ref(0), 0).value;
    assert t == [LBRACE, QUOTE, BACKSLASH, BACKSLASH, QUOTE, COLON] + NULL_TOKEN + [RBRACE] by {
      assert KeyText(key) == [QUOTE, BACKSLASH, BACKSLASH, QUOTE, COLON];
    }
    assert t[1..5] == [QUOTE, BACKSLASH, BACKSLASH, QUOTE];
    EscapedBackslashMisleads(t, 1);
  }

  /** So does a blob that does not end in a backslash, but in a byte that is dropped behind one. */
  lemma DroppedByteMisleads()
    ensures var data := [BACKSLASH, 0x80];
            var g: Graph := map[0 := Blob(data)];
            && Closed(g) && !EndsInBackslash(data)
            && EncodeObject(g, Ref(0), 0) == Some([QUOTE, BACKSLASH, BACKSLASH, QUOTE])
            && !Tracks([QUOTE, BACKSLASH, BACKSLASH, QUOTE], 0, START)
  {
    hide Tracks;
    var data := [BACKSLASH, 0x80];
    var g: Graph := map[0 := Blob(data)];
    assert Closed(g);
    assert SquirrelString.EncodedFrom(data, 2) == Some([]) && SquirrelString.EncodedFrom(data, 1) == Some([]);
    assert SquirrelString.EncodedFrom(data, 0) == Some([BACKSLASH, BACKSLASH] + []);
    assert [QUOTE] + ([BACKSLASH, BACKSLASH] + []) + [QUOTE] == [QUOTE, BACKSLASH, BACKSLASH, QUOTE];
    assert QuotedText(data) == Some([QUOTE, BACKSLASH, BACKSLASH, QUOTE]);
    assert EncodeNode(g, 0, 0) == QuotedText(data);
    EscapedBackslashMisleads([QUOTE, BACKSLASH, BACKSLASH, QUOTE], 0);
  }
}
