/** The Squirrel JSON library's encoder: a recursion over an object graph, possibly cyclic, that
    writes into a growing buffer, erases trailing commas and takes back what an iteration that fails
    half-way has written. */
module SquirrelEncoder {
  import opened Bytes
  import opened GrowBuffer
  import SquirrelString

  const MAX_ENCODE_DEPTH := 32
  const INITIAL_SIZE := 50

  // ---------- Object graphs ----------

  datatype Object =
    | Null
    | Bool(b: bool)
    | Number(text: bytes)       // what tostring gives for the integer or float
    | Text(data: bytes)
    | Function
    | Unserializable
    | Ref(id: nat)

  /** `key` is None when the key does not convert to a string; `leaves` is what fetching the member and
      converting its key do to the virtual machine's last error: None, as always in a table, is nothing. */
  datatype Member = Member(key: Option<bytes>, value: Object, leaves: Option<bool>)

  datatype Node =
    | Table(members: seq<Member>)                      // a table or a class
    | Array(elements: seq<Object>)
    | Blob(data: bytes)
    | SerializesRaw(text: Option<bytes>, leaves: Option<bool>)      // text None: _serializeRaw failed
    | Serializes(returned: Option<Object>, leaves: Option<bool>)    // returned None: _serialize failed
    | Instance(members: seq<Member>, error: bool, cls: nat)
    // what nexti yields, whether its last step leaves an error, and the instance's class
    // `leaves`: whether looking up and calling the function leaves an error in the virtual machine;
    // None: it leaves the machine's last error as it was

  type Graph = map<nat, Node>

  predicate Known(g: Graph, o: Object) {
    o.Ref? ==> o.id in g
  }

  predicate AllKnown(g: Graph, ms: seq<Member>) {
    forall i | 0 <= i < |ms| :: Known(g, ms[i].value)
  }

  predicate NodeKnown(g: Graph, n: Node) {
    match n
    case Table(ms) => AllKnown(g, ms)
    case Array(es) => forall i | 0 <= i < |es| :: Known(g, es[i])
    case Serializes(r, _) => r.Some? ==> Known(g, r.value)
    case Instance(ms, _, cls) => AllKnown(g, ms) && cls in g && g[cls].Table?
    case _ => true
  }

  /** Every reference leads to an object of the graph, and the class of an instance is a class. */
  ghost predicate Closed(g: Graph) {
    forall id | id in g :: NodeKnown(g, g[id])
  }

  // ---------- The text of an object ----------

  /** The parts with a comma between each two. */
  function Join(parts: seq<bytes>): bytes {
    if |parts| == 0 then []
    else if |parts| == 1 then parts[0]
    else Join(parts[..|parts| - 1]) + [COMMA] + parts[|parts| - 1]
  }

  function Enclosed(open: byte, parts: Option<seq<bytes>>, close: byte): Option<bytes> {
    match parts
    case None => None
    case Some(ps) => Some([open] + Join(ps) + [close])
  }

  function QuotedText(data: bytes): Option<bytes> {
    match SquirrelString.EncodedFrom(data, 0)
    case None => None
    case Some(body) => Some([QUOTE] + body + [QUOTE])
  }

  /** Keys are written as they are. */
  function KeyText(key: bytes): bytes {
    [QUOTE] + key + [QUOTE, COLON]
  }

  function Budget(depth: nat): nat {
    if depth > MAX_ENCODE_DEPTH + 1 then 0 else MAX_ENCODE_DEPTH + 2 - depth
  }

  /** An instance may hand over to its class at the same depth. */
  function Rank(g: Graph, o: Object): nat {
    if o.Ref? && o.id in g && g[o.id].Instance? then 1 else 0
  }

  // ---------- The machine's last error ----------

  /** An effect on the last error: Some sets or clears it, None leaves it alone. */
  function After(effect: Option<bool>, pending: bool): bool {
    if effect.Some? then effect.value else pending
  }

  /** Of two effects the later one prevails. */
  function Then(first: Option<bool>, second: Option<bool>): Option<bool> {
    if second.Some? then second else first
  }

  /** What encoding an object does to the last error. */
  function Effect(g: Graph, o: Object, depth: nat): Option<bool>
    requires Closed(g) && Known(g, o)
    decreases Budget(depth), Rank(g, o), 1
  {
    if o.Ref? && depth <= MAX_ENCODE_DEPTH then NodeEffect(g, o.id, depth) else None
  }

  function NodeEffect(g: Graph, id: nat, depth: nat): Option<bool>
    requires Closed(g) && id in g && depth <= MAX_ENCODE_DEPTH
    decreases Budget(depth), Rank(g, Ref(id)), 0
  {
    assert NodeKnown(g, g[id]);
    match g[id]
    case Table(ms) => MembersEffect(g, ms, |ms|, depth + 1)
    case Array(es) => ElementsEffect(g, es, |es|, depth + 1)
    case Blob(_) => None
    case SerializesRaw(_, leaves) => leaves
    case Serializes(r, leaves) => if r.None? then leaves else Then(leaves, Effect(g, r.value, depth + 1))
    case Instance(ms, error, cls) =>
      if IterationFails(g, ms, error, depth) then Then(Some(true), Effect(g, Ref(cls), depth)) else Some(false)
  }

  /** The error is cleared before an instance is iterated. Afterwards there is one if the iteration
      raised it, or if what was encoded inside has left one. */
  predicate IterationFails(g: Graph, ms: seq<Member>, error: bool, depth: nat)
    requires Closed(g) && AllKnown(g, ms) && depth <= MAX_ENCODE_DEPTH
    decreases Budget(depth + 1), 3
  {
    error || After(MembersEffect(g, ms, |ms|, depth + 1), false)
  }

  function MembersEffect(g: Graph, ms: seq<Member>, n: nat, depth: nat): Option<bool>
    requires Closed(g) && AllKnown(g, ms) && n <= |ms|
    decreases Budget(depth), 2, n
  {
    if n == 0 then None
    else Then(MembersEffect(g, ms, n - 1, depth), MemberEffect(g, ms[n - 1], depth))
  }

  function MemberEffect(g: Graph, m: Member, depth: nat): Option<bool>
    requires Closed(g) && Known(g, m.value)
    decreases Budget(depth), 1, 2
  {
    Then(m.leaves, if m.value.Function? then None else Effect(g, m.value, depth))
  }

  function ElementsEffect(g: Graph, es: seq<Object>, n: nat, depth: nat): Option<bool>
    requires Closed(g) && n <= |es| && forall i | 0 <= i < |es| :: Known(g, es[i])
    decreases Budget(depth), 2, n
  {
    if n == 0 then None
    else Then(ElementsEffect(g, es, n - 1, depth), Effect(g, es[n - 1], depth))
  }

  // ---------- Encoding ----------

  function EncodeObject(g: Graph, o: Object, depth: nat): Option<bytes>
    requires Closed(g) && Known(g, o)
    decreases Budget(depth), Rank(g, o), 1
  {
    if depth > MAX_ENCODE_DEPTH then None
    else
      match o
      case Null => Some(NULL_TOKEN)
      case Bool(b) => Some(if b then TRUE_TOKEN else FALSE_TOKEN)
      case Number(text) => Some(text)
      case Text(data) => QuotedText(data)
      case Function => None
      case Unserializable => None
      case Ref(id) => EncodeNode(g, id, depth)
  }

  function EncodeNode(g: Graph, id: nat, depth: nat): Option<bytes>
    requires Closed(g) && id in g && depth <= MAX_ENCODE_DEPTH
    decreases Budget(depth), Rank(g, Ref(id)), 0
  {
    assert NodeKnown(g, g[id]);
    match g[id]
    case Table(ms) => Enclosed(LBRACE, EncodeMembers(g, ms, |ms|, depth + 1), RBRACE)
    case Array(es) => Enclosed(LBRACKET, EncodeElements(g, es, |es|, depth + 1), RBRACKET)
    case Blob(data) => QuotedText(data)
    case SerializesRaw(text, _) => if text.None? then None else Some([QUOTE] + text.value + [QUOTE])
    case Serializes(r, _) => if r.None? then None else EncodeObject(g, r.value, depth + 1)
    case Instance(ms, error, cls) =>
      var parts := EncodeMembers(g, ms, |ms|, depth + 1);
      if parts.Some? && IterationFails(g, ms, error, depth) then EncodeObject(g, Ref(cls), depth)
      else Enclosed(LBRACE, parts, RBRACE)
  }

  /** The texts of the first `n` members; functions are passed over. */
  function EncodeMembers(g: Graph, ms: seq<Member>, n: nat, depth: nat): Option<seq<bytes>>
    requires Closed(g) && AllKnown(g, ms) && n <= |ms|
    decreases Budget(depth), 2, n
  {
    if n == 0 then Some([])
    else
      var parts := EncodeMembers(g, ms, n - 1, depth);
      if ms[n - 1].value.Function? then parts
      else Extended(parts, EncodeMember(g, ms[n - 1], depth))
  }

  function EncodeMember(g: Graph, m: Member, depth: nat): Option<bytes>
    requires Closed(g) && Known(g, m.value)
    decreases Budget(depth), 1, 2
  {
    if m.key.None? then None
    else
      match EncodeObject(g, m.value, depth)
      case None => None
      case Some(text) => Some(KeyText(m.key.value) + text)
  }

  function EncodeElements(g: Graph, es: seq<Object>, n: nat, depth: nat): Option<seq<bytes>>
    requires Closed(g) && n <= |es| && forall i | 0 <= i < |es| :: Known(g, es[i])
    decreases Budget(depth), 2, n
  {
    if n == 0 then Some([])
    else Extended(EncodeElements(g, es, n - 1, depth), EncodeObject(g, es[n - 1], depth))
  }

  function Extended(parts: Option<seq<bytes>>, last: Option<bytes>): Option<seq<bytes>> {
    if parts.None? || last.None? then None else Some(parts.value + [last.value])
  }

  lemma {:induction false} MembersFailEarly(g: Graph, ms: seq<Member>, n: nat, m: nat, depth: nat)
    requires Closed(g) && AllKnown(g, ms) && n <= m <= |ms|
    requires EncodeMembers(g, ms, n, depth).None?
    ensures EncodeMembers(g, ms, m, depth).None?
    decreases m
  {
    hide Closed, AllKnown, EncodeMember;
    if n < m {
      MembersFailEarly(g, ms, n, m - 1, depth);
    }
  }

  lemma {:induction false} ElementsFailEarly(g: Graph, es: seq<Object>, n: nat, m: nat, depth: nat)
    requires Closed(g) && n <= m <= |es| && forall i | 0 <= i < |es| :: Known(g, es[i])
    requires EncodeElements(g, es, n, depth).None?
    ensures EncodeElements(g, es, m, depth).None?
    decreases m
  {
    hide Closed, EncodeObject;
    if n < m {
      ElementsFailEarly(g, es, n, m - 1, depth);
    }
  }

  // ---------- The encoder ----------

  /** What stands in the buffer while a container is written: a comma after every part. */
  function Trailed(parts: seq<bytes>): bytes {
    if parts == [] then [] else Trailed(parts[..|parts| - 1]) + parts[|parts| - 1] + [COMMA]
  }

  /** So overwriting the last comma leaves the joined parts. */
  lemma {:induction false} TrailedIsJoined(parts: seq<bytes>)
    ensures parts != [] ==> Trailed(parts) == Join(parts) + [COMMA]
    decreases |parts|
  {
    if |parts| > 1 {
      TrailedIsJoined(parts[..|parts| - 1]);
    }
  }

  lemma TrailedExtended(parts: seq<bytes>, last: bytes)
    ensures Trailed(parts + [last]) == Trailed(parts) + last + [COMMA]
  {
    assert (parts + [last])[..|parts|] == parts;
  }

  /** Places the closing bracket over the trailing comma, or behind the opening bracket. */
  method Close(close: byte, snapshot: nat, out: Buffer, ghost before: bytes, ghost parts: seq<bytes>)
    requires out.Valid() && out.Contents() == before + Trailed(parts) && |before| == snapshot
    modifies out, out.storage
    ensures out.Valid() && (out.storage == old(out.storage) || fresh(out.storage))
    ensures out.Contents() == before + Join(parts) + [close]
  {
    TrailedIsJoined(parts);
    if snapshot != out.size {
      assert parts != [];
      assert before + Trailed(parts) == (before + Join(parts)) + [COMMA];
      out.SetLast(close);
    } else {
      assert parts == [];
      assert before + Trailed(parts) == before + Join(parts);
      out.Append(close);
    }
  }

  /** What the encoder shares with everything else that runs in the virtual machine. */
  class Machine {
    var lastError: bool

    constructor ()
    {
      lastError := false;
    }
  }

  method WriteObject(g: Graph, o: Object, depth: nat, vm: Machine, out: Buffer) returns (ok: bool)
    requires Closed(g) && Known(g, o) && out.Valid()
    modifies vm, out, out.storage
    ensures out.Valid() && (out.storage == old(out.storage) || fresh(out.storage))
    ensures ok == EncodeObject(g, o, depth).Some?
    ensures ok ==> out.Contents() == old(out.Contents()) + EncodeObject(g, o, depth).value
    ensures ok ==> vm.lastError == After(Effect(g, o, depth), old(vm.lastError))
    ensures old(out.Contents()) <= out.Contents()
    decreases Budget(depth), Rank(g, o), 1
  {
    hide Closed, EncodeNode, NodeEffect, Join;
    if depth > MAX_ENCODE_DEPTH {
      return false;
    }
    match o
    case Null =>
      out.AppendAll(NULL_TOKEN);
      return true;
    case Bool(b) =>
      out.AppendAll(if b then TRUE_TOKEN else FALSE_TOKEN);
      return true;
    case Number(text) =>
      out.AppendAll(text);
      return true;
    case Text(data) =>
      ok := WriteText(data, out);
    case Function =>
      return false;
    case Unserializable =>
      return false;
    case Ref(id) =>
      ok := WriteNode(g, id, depth, vm, out);
  }

  method WriteText(data: bytes, out: Buffer) returns (ok: bool)
    requires out.Valid()
    modifies out, out.storage
    ensures out.Valid() && (out.storage == old(out.storage) || fresh(out.storage))
    ensures ok == QuotedText(data).Some?
    ensures ok ==> out.Contents() == old(out.Contents()) + QuotedText(data).value
    ensures old(out.Contents()) <= out.Contents()
  {
    hide SquirrelString.EncodedFrom;
    ok := SquirrelString.EscapeAndEncode(data, out);
    if ok {
      Between(old(out.Contents()), QUOTE, SquirrelString.EncodedFrom(data, 0).value, QUOTE);
    }
  }

  lemma Between(before: bytes, open: byte, body: bytes, close: byte)
    ensures before + [open] + body + [close] == before + ([open] + body + [close])
  {
  }

  method WriteNode(g: Graph, id: nat, depth: nat, vm: Machine, out: Buffer) returns (ok: bool)
    requires Closed(g) && id in g && depth <= MAX_ENCODE_DEPTH && out.Valid()
    modifies vm, out, out.storage
    ensures out.Valid() && (out.storage == old(out.storage) || fresh(out.storage))
    ensures ok == EncodeNode(g, id, depth).Some?
    ensures ok ==> out.Contents() == old(out.Contents()) + EncodeNode(g, id, depth).value
    ensures ok ==> vm.lastError == After(NodeEffect(g, id, depth), old(vm.lastError))
    ensures old(out.Contents()) <= out.Contents()
    decreases Budget(depth), Rank(g, Ref(id)), 0
  {
    hide EncodeObject, EncodeMembers, EncodeElements, Effect, MembersEffect, ElementsEffect, Join;
    assert NodeKnown(g, g[id]);
    match g[id]
    case Table(ms) =>
      ok := WriteClassTable(g, ms, depth, vm, out);
    case Array(es) =>
      ok := WriteArray(g, es, depth, vm, out);
    case Blob(data) =>
      ok := WriteText(data, out);
    case SerializesRaw(text, leaves) =>
      vm.lastError := After(leaves, vm.lastError);
      if text.None? {
        return false;
      }
      out.AppendAll([QUOTE] + text.value + [QUOTE]);
      return true;
    case Serializes(r, leaves) =>
      vm.lastError := After(leaves, vm.lastError);
      if r.None? {
        return false;
      }
      ok := WriteObject(g, r.value, depth + 1, vm, out);
    case Instance(ms, error, cls) =>
      ok := WriteInstance(g, ms, error, cls, depth, vm, out);
  }

  /** Iterates the instance; if the machine then holds an error, takes back what was written and
      encodes the class instead. */
  method WriteInstance(g: Graph, ms: seq<Member>, error: bool, cls: nat, depth: nat, vm: Machine, out: Buffer)
    returns (ok: bool)
    requires Closed(g) && AllKnown(g, ms) && cls in g && g[cls].Table? && depth <= MAX_ENCODE_DEPTH && out.Valid()
    modifies vm, out, out.storage
    ensures out.Valid() && (out.storage == old(out.storage) || fresh(out.storage))
    ensures var parts, fails := EncodeMembers(g, ms, |ms|, depth + 1), IterationFails(g, ms, error, depth);
            var text := if parts.Some? && fails then EncodeObject(g, Ref(cls), depth)
                        else Enclosed(LBRACE, parts, RBRACE);
            && ok == text.Some?
            && (ok ==> out.Contents() == old(out.Contents()) + text.value)
            && (ok ==> vm.lastError == if fails then After(Effect(g, Ref(cls), depth), true) else false)
    ensures old(out.Contents()) <= out.Contents()
    decreases Budget(depth), 0, 2
  {
    hide EncodeObject, EncodeMembers, Effect, MembersEffect, Join;
    var start := out.size;
    vm.lastError := false;
    ok := WriteClassTable(g, ms, depth, vm, out);
    if ok {
      if error {
        vm.lastError := true;
      }
      if vm.lastError {
        out.Rewind(start);
        ok := WriteObject(g, Ref(cls), depth, vm, out);
      }
    }
  }

  method WriteClassTable(g: Graph, ms: seq<Member>, depth: nat, vm: Machine, out: Buffer) returns (ok: bool)
    requires Closed(g) && AllKnown(g, ms) && depth <= MAX_ENCODE_DEPTH && out.Valid()
    modifies vm, out, out.storage
    ensures out.Valid() && (out.storage == old(out.storage) || fresh(out.storage))
    ensures var text := Enclosed(LBRACE, EncodeMembers(g, ms, |ms|, depth + 1), RBRACE);
            ok == text.Some? && (ok ==> out.Contents() == old(out.Contents()) + text.value)
    ensures ok ==> vm.lastError == After(MembersEffect(g, ms, |ms|, depth + 1), old(vm.lastError))
    ensures old(out.Contents()) <= out.Contents()
    decreases Budget(depth + 1), 3
  {
    hide Closed, EncodeMember, MemberEffect, Join, Trailed;
    ghost var before := out.Contents();
    out.Append(LBRACE);
    var snapshot := out.size;
    ghost var open := before + [LBRACE];
    ghost var parts: seq<bytes> := [];
    NothingTrailed(open);
    for i := 0 to |ms|
      invariant out.Valid() && (out.storage == old(out.storage) || fresh(out.storage))
      invariant EncodeMembers(g, ms, i, depth + 1) == Some(parts)
      invariant vm.lastError == After(MembersEffect(g, ms, i, depth + 1), old(vm.lastError))
      invariant out.Contents() == open + Trailed(parts)
    {
      ok := WriteEntry(g, ms[i], depth + 1, vm, out);
      if !ok {
        MembersFailEarly(g, ms, i + 1, |ms|, depth + 1);
        PrefixTrans(before, open, out.Contents());
        return;
      }
      if !ms[i].value.Function? {
        ghost var part := EncodeMember(g, ms[i], depth + 1).value;
        TrailedExtended(parts, part);
        FourParts(open, Trailed(parts), part, [COMMA]);
        parts := parts + [part];
      }
    }
    Close(RBRACE, snapshot, out, open, parts);
    Between(before, LBRACE, Join(parts), RBRACE);
    ok := true;
  }

  lemma NothingTrailed(open: bytes)
    ensures open + Trailed([]) == open
  {
  }

  lemma PrefixTrans(a: bytes, b: bytes, c: bytes)
    requires a <= b <= c
    ensures a <= c
  {
  }

  /** One turn of the loop: a function is passed over, any other member is followed by a comma. */
  method WriteEntry(g: Graph, m: Member, depth: nat, vm: Machine, out: Buffer) returns (ok: bool)
    requires Closed(g) && Known(g, m.value) && out.Valid()
    modifies vm, out, out.storage
    ensures out.Valid() && (out.storage == old(out.storage) || fresh(out.storage))
    ensures ok == (m.value.Function? || EncodeMember(g, m, depth).Some?)
    ensures ok && m.value.Function? ==> out.Contents() == old(out.Contents())
    ensures ok && !m.value.Function? ==>
              out.Contents() == old(out.Contents()) + EncodeMember(g, m, depth).value + [COMMA]
    ensures ok ==> vm.lastError == After(MemberEffect(g, m, depth), old(vm.lastError))
    ensures old(out.Contents()) <= out.Contents()
    decreases Budget(depth), 1, 3
  {
    hide Closed, EncodeMember, Effect;
    vm.lastError := After(m.leaves, vm.lastError);
    if m.value.Function? {
      return true;
    }
    ok := WriteMember(g, m, depth, vm, out);
    if ok {
      out.Append(COMMA);
    }
  }

  method WriteKey(key: bytes, out: Buffer)
    requires out.Valid()
    modifies out, out.storage
    ensures out.Valid() && (out.storage == old(out.storage) || fresh(out.storage))
    ensures out.Contents() == old(out.Contents()) + KeyText(key)
  {
    ghost var before := out.Contents();
    out.GrowStorage(out.size + 3 + |key|);
    out.Put(QUOTE);
    out.PutAll(key);
    out.Put(QUOTE);
    out.Put(COLON);
    assert out.Contents() == before + KeyText(key);
  }

  method WriteMember(g: Graph, m: Member, depth: nat, vm: Machine, out: Buffer) returns (ok: bool)
    requires Closed(g) && Known(g, m.value) && out.Valid()
    modifies vm, out, out.storage
    ensures out.Valid() && (out.storage == old(out.storage) || fresh(out.storage))
    ensures ok == EncodeMember(g, m, depth).Some?
    ensures ok ==> out.Contents() == old(out.Contents()) + EncodeMember(g, m, depth).value
    ensures ok ==> vm.lastError == After(Effect(g, m.value, depth), old(vm.lastError))
    ensures old(out.Contents()) <= out.Contents()
    decreases Budget(depth), 1, 2
  {
    hide Closed, EncodeObject, Effect;
    if m.key.None? {
      return false;
    }
    ghost var before := out.Contents();
    var key := m.key.value;
    WriteKey(key, out);
    ok := WriteObject(g, m.value, depth, vm, out);
    if ok {
      ConcatAssoc(before, KeyText(key), EncodeObject(g, m.value, depth).value);
    } else {
      PrefixTrans(before, before + KeyText(key), out.Contents());
    }
  }

  method WriteArray(g: Graph, es: seq<Object>, depth: nat, vm: Machine, out: Buffer) returns (ok: bool)
    requires Closed(g) && depth <= MAX_ENCODE_DEPTH && out.Valid()
    requires forall i | 0 <= i < |es| :: Known(g, es[i])
    modifies vm, out, out.storage
    ensures out.Valid() && (out.storage == old(out.storage) || fresh(out.storage))
    ensures var text := Enclosed(LBRACKET, EncodeElements(g, es, |es|, depth + 1), RBRACKET);
            ok == text.Some? && (ok ==> out.Contents() == old(out.Contents()) + text.value)
    ensures ok ==> vm.lastError == After(ElementsEffect(g, es, |es|, depth + 1), old(vm.lastError))
    ensures old(out.Contents()) <= out.Contents()
    decreases Budget(depth + 1), 3
  {
    hide Closed, EncodeObject, Effect, Join, Trailed;
    ghost var before := out.Contents();
    out.Append(LBRACKET);
    var snapshot := out.size;
    ghost var open := before + [LBRACKET];
    ghost var parts: seq<bytes> := [];
    NothingTrailed(open);
    for i := 0 to |es|
      invariant out.Valid() && (out.storage == old(out.storage) || fresh(out.storage))
      invariant EncodeElements(g, es, i, depth + 1) == Some(parts)
      invariant vm.lastError == After(ElementsEffect(g, es, i, depth + 1), old(vm.lastError))
      invariant out.Contents() == open + Trailed(parts)
    {
      ok := WriteObject(g, es[i], depth + 1, vm, out);
      if !ok {
        ElementsFailEarly(g, es, i + 1, |es|, depth + 1);
        PrefixTrans(before, open, out.Contents());
        return;
      }
      ghost var part := EncodeObject(g, es[i], depth + 1).value;
      out.Append(COMMA);
      TrailedExtended(parts, part);
      FourParts(open, Trailed(parts), part, [COMMA]);
      parts := parts + [part];
    }
    Close(RBRACKET, snapshot, out, open, parts);
    Between(before, LBRACKET, Join(parts), RBRACKET);
    ok := true;
  }

  /** The encode operation; the buffer also gets a terminating NUL behind the text. */
  method Encode(g: Graph, o: Object, vm: Machine) returns (r: Option<bytes>)
    requires Closed(g) && Known(g, o)
    modifies vm
    ensures r == EncodeObject(g, o, 0)
  {
    var out := new Buffer(INITIAL_SIZE);
    var ok := WriteObject(g, o, 0, vm, out);
    if !ok {
      return None;
    }
    ghost var text := EncodeObject(g, o, 0).value;
    assert [] + text == text;
    out.GrowStorage(out.size + 1);
    assert out.storage[..out.size] == text;
    out.storage[out.size] := 0;
    assert out.storage[..out.size] == text;
    return Some(out.storage[..out.size]);
  }
}
