/** Laws of the Squirrel encoder: which instances are written as their members, what depth changes, and
    exactly when encoding fails. */
module EncoderLaws {
  import opened Bytes
  import opened SquirrelEncoder

  // ---------- Which instances are written as their members ----------

  lemma {:induction false} LastEffectDecides(g: Graph, ms: seq<Member>, n: nat, depth: nat, value: bool)
    requires Closed(g) && AllKnown(g, ms) && n <= |ms|
    ensures MembersEffect(g, ms, n, depth) == Some(value) <==> LastEffectIs(g, ms, n, depth, value)
    ensures MembersEffect(g, ms, n, depth) == None <==> forall k: nat | k < n :: MemberEffect(g, ms[k], depth) == None
    decreases n
  {
    hide Closed, MemberEffect;
    if n > 0 {
      LastEffectDecides(g, ms, n - 1, depth, value);
      if LastEffectIs(g, ms, n - 1, depth, value) && MemberEffect(g, ms[n - 1], depth).None? {
        var k: nat :| LastEffectAt(g, ms, n - 1, depth, value, k);
        assert LastEffectAt(g, ms, n, depth, value, k);
      }
      if LastEffectIs(g, ms, n, depth, value) {
        var k: nat :| LastEffectAt(g, ms, n, depth, value, k);
        if k < n - 1 {
          assert LastEffectAt(g, ms, n - 1, depth, value, k);
        }
      }
      if MemberEffect(g, ms[n - 1], depth) == Some(value) {
        assert LastEffectAt(g, ms, n, depth, value, n - 1);
      }
    }
  }

  /** Member `k` is the last of the first `n` that has an effect on the last error, and this is it. */
  ghost predicate LastEffectAt(g: Graph, ms: seq<Member>, n: nat, depth: nat, value: bool, k: nat)
    requires Closed(g) && AllKnown(g, ms) && n <= |ms|
  {
    && k < n && MemberEffect(g, ms[k], depth) == Some(value)
    && forall j: nat | k < j < n :: MemberEffect(g, ms[j], depth) == None
  }

  ghost predicate LastEffectIs(g: Graph, ms: seq<Member>, n: nat, depth: nat, value: bool)
    requires Closed(g) && AllKnown(g, ms) && n <= |ms|
  {
    exists k: nat :: LastEffectAt(g, ms, n, depth, value, k)
  }

  /** An instance whose members can be encoded is written as its members if and only if its own iteration
      raises no error and the last member that has an effect on the machine's error leaves none. */
  lemma WrittenAsMembersIff(g: Graph, id: nat, depth: nat)
    requires Closed(g) && id in g && g[id].Instance? && depth <= MAX_ENCODE_DEPTH
    requires AllKnown(g, g[id].members) && EncodeMembers(g, g[id].members, |g[id].members|, depth + 1).Some?
    ensures var ms := g[id].members;
            var own := !g[id].error && !LastEffectIs(g, ms, |ms|, depth + 1, true);
            EncodeNode(g, id, depth) == if own then Enclosed(LBRACE, EncodeMembers(g, ms, |ms|, depth + 1), RBRACE)
                                        else EncodeObject(g, Ref(g[id].cls), depth)
  {
    hide EncodeObject, EncodeMembers, MembersEffect, LastEffectIs, Enclosed;
    assert NodeKnown(g, g[id]);
    LastEffectDecides(g, g[id].members, |g[id].members|, depth + 1, true);
  }

  /** Every instance that is iterated decides about the error, whatever it was before. */
  lemma InstanceDecides(g: Graph, id: nat, depth: nat)
    requires Closed(g) && id in g && g[id].Instance? && depth <= MAX_ENCODE_DEPTH
    ensures Effect(g, Ref(id), depth).Some?
  {
    hide MembersEffect;
    assert NodeKnown(g, g[id]);
  }

  // ---------- The last error as a run of writes ----------

  function AsWrites(leaves: Option<bool>): seq<bool> {
    if leaves.Some? then [leaves.value] else []
  }

  function LastWrite(ws: seq<bool>): Option<bool> {
    if ws == [] then None else Some(ws[|ws| - 1])
  }

  /** What is written to the machine's last error while an object is encoded, in order: fetching a member comes before
      encoding its value; an instance is cleared first and marked by a failing last step, and its class follows if
      that leaves an error. */
  function ErrorWrites(g: Graph, o: Object, depth: nat): seq<bool>
    requires Closed(g) && Known(g, o)
    decreases Budget(depth), Rank(g, o), 1
  {
    if o.Ref? && depth <= MAX_ENCODE_DEPTH then NodeWrites(g, o.id, depth) else []
  }

  function NodeWrites(g: Graph, id: nat, depth: nat): seq<bool>
    requires Closed(g) && id in g && depth <= MAX_ENCODE_DEPTH
    decreases Budget(depth), Rank(g, Ref(id)), 0
  {
    assert NodeKnown(g, g[id]);
    match g[id]
    case Table(ms) => MembersWrites(g, ms, |ms|, depth + 1)
    case Array(es) => ElementsWrites(g, es, |es|, depth + 1)
    case Blob(_) => []
    case SerializesRaw(_, leaves) => AsWrites(leaves)
    case Serializes(r, leaves) => AsWrites(leaves) + if r.None? then [] else ErrorWrites(g, r.value, depth + 1)
    case Instance(ms, error, cls) =>
      var own := [false] + MembersWrites(g, ms, |ms|, depth + 1) + if error then [true] else [];
      if own[|own| - 1] then own + ErrorWrites(g, Ref(cls), depth) else own
  }

  function MembersWrites(g: Graph, ms: seq<Member>, n: nat, depth: nat): seq<bool>
    requires Closed(g) && AllKnown(g, ms) && n <= |ms|
    decreases Budget(depth), 2, n
  {
    if n == 0 then []
    else
      MembersWrites(g, ms, n - 1, depth) + AsWrites(ms[n - 1].leaves)
      + if ms[n - 1].value.Function? then [] else ErrorWrites(g, ms[n - 1].value, depth)
  }

  function ElementsWrites(g: Graph, es: seq<Object>, n: nat, depth: nat): seq<bool>
    requires Closed(g) && n <= |es| && forall i | 0 <= i < |es| :: Known(g, es[i])
    decreases Budget(depth), 2, n
  {
    if n == 0 then [] else ElementsWrites(g, es, n - 1, depth) + ErrorWrites(g, es[n - 1], depth)
  }

  lemma LastOfBoth(a: seq<bool>, b: seq<bool>)
    ensures LastWrite(a + b) == Then(LastWrite(a), LastWrite(b))
  {
  }

  lemma LastOfLeaves(leaves: Option<bool>)
    ensures LastWrite(AsWrites(leaves)) == leaves
  {
  }

  /** The effect of encoding an object on the last error is its last write. */
  lemma {:induction false} EffectIsLastWrite(g: Graph, o: Object, depth: nat)
    requires Closed(g) && Known(g, o)
    ensures Effect(g, o, depth) == LastWrite(ErrorWrites(g, o, depth))
    decreases Budget(depth), Rank(g, o), 1
  {
    hide NodeEffect, NodeWrites, Closed;
    if o.Ref? && depth <= MAX_ENCODE_DEPTH {
      NodeEffectIsLast(g, o.id, depth);
    }
  }

  lemma {:induction false} NodeEffectIsLast(g: Graph, id: nat, depth: nat)
    requires Closed(g) && id in g && depth <= MAX_ENCODE_DEPTH
    ensures NodeEffect(g, id, depth) == LastWrite(NodeWrites(g, id, depth))
    decreases Budget(depth), Rank(g, Ref(id)), 0
  {
    hide Effect, ErrorWrites, MembersEffect, MembersWrites, ElementsEffect, ElementsWrites, AsWrites;
    assert NodeKnown(g, g[id]);
    match g[id]
    case Table(ms) => MembersEffectIsLast(g, ms, |ms|, depth + 1);
    case Array(es) => ElementsEffectIsLast(g, es, |es|, depth + 1);
    case SerializesRaw(_, leaves) => LastOfLeaves(leaves);
    case Serializes(r, leaves) =>
      LastOfLeaves(leaves);
      if r.Some? {
        EffectIsLastWrite(g, r.value, depth + 1);
        LastOfBoth(AsWrites(leaves), ErrorWrites(g, r.value, depth + 1));
      }
    case Instance(ms, error, cls) =>
      MembersEffectIsLast(g, ms, |ms|, depth + 1);
      EffectIsLastWrite(g, Ref(cls), depth);
      var inner, mark := MembersWrites(g, ms, |ms|, depth + 1), if error then [true] else [];
      LastOfBoth([false], inner);
      LastOfBoth([false] + inner, mark);
      LastOfBoth([false] + inner + mark, ErrorWrites(g, Ref(cls), depth));
    case _ =>
  }

  lemma {:induction false} MembersEffectIsLast(g: Graph, ms: seq<Member>, n: nat, depth: nat)
    requires Closed(g) && AllKnown(g, ms) && n <= |ms|
    ensures MembersEffect(g, ms, n, depth) == LastWrite(MembersWrites(g, ms, n, depth))
    decreases Budget(depth), 2, n
  {
    hide Closed, Effect, ErrorWrites, LastWrite, AsWrites;
    if n == 0 {
      assert LastWrite([]) == None by { NoWrites(); }
    } else {
      var m := ms[n - 1];
      var inner := if m.value.Function? then [] else ErrorWrites(g, m.value, depth);
      MembersEffectIsLast(g, ms, n - 1, depth);
      LastOfLeaves(m.leaves);
      NoWrites();
      if !m.value.Function? {
        EffectIsLastWrite(g, m.value, depth);
      }
      LastOfBoth(MembersWrites(g, ms, n - 1, depth), AsWrites(m.leaves));
      LastOfBoth(MembersWrites(g, ms, n - 1, depth) + AsWrites(m.leaves), inner);
    }
  }

  lemma NoWrites()
    ensures LastWrite([]) == None
  {
  }

  lemma {:induction false} ElementsEffectIsLast(g: Graph, es: seq<Object>, n: nat, depth: nat)
    requires Closed(g) && n <= |es| && forall i | 0 <= i < |es| :: Known(g, es[i])
    ensures ElementsEffect(g, es, n, depth) == LastWrite(ElementsWrites(g, es, n, depth))
    decreases Budget(depth), 2, n
  {
    hide Closed, Effect, ErrorWrites, LastWrite;
    if n == 0 {
      NoWrites();
    } else {
      ElementsEffectIsLast(g, es, n - 1, depth);
      EffectIsLastWrite(g, es[n - 1], depth);
      LastOfBoth(ElementsWrites(g, es, n - 1, depth), ErrorWrites(g, es[n - 1], depth));
    }
  }

  /** A nested instance that cannot be iterated: the outer one's members are discarded as well. */
  lemma NestedErrorDiscardsMembers()
    ensures var key := [0x6B];
            var g: Graph := map[0 := Instance([Member(Some(key), Ref(1), None)], false, 2), 1 := Instance([], true, 3),
                                2 := Table([Member(Some(key), Null, None)]), 3 := Table([])];
            && Closed(g)
            && EncodeObject(g, Ref(0), 0) == Some([LBRACE] + KeyText(key) + NULL_TOKEN + [RBRACE])
            && EncodeMembers(g, g[0].members, 1, 1) == Some([KeyText(key) + [LBRACE, RBRACE]])
  {
    var key := [0x6B];
    var ms, cls := [Member(Some(key), Ref(1), None)], [Member(Some(key), Null, None)];
    var g: Graph := map[0 := Instance(ms, false, 2), 1 := Instance([], true, 3), 2 := Table(cls), 3 := Table([])];
    assert Closed(g);
    EmptyTable(g, 3, 1);
    assert MembersEffect(g, [], 0, 2) == None && EncodeMembers(g, [], 0, 2) == Some([]);
    assert EncodeNode(g, 1, 1) == Some([LBRACE, RBRACE]) && EncodeObject(g, Ref(1), 1) == Some([LBRACE, RBRACE]);
    assert NodeEffect(g, 1, 1) == Some(true) && MemberEffect(g, ms[0], 1) == Some(true);
    assert MembersEffect(g, ms, 0, 1) == None && MembersEffect(g, ms, 1, 1) == Some(true);
    var part := KeyText(key) + [LBRACE, RBRACE];
    assert EncodeMembers(g, ms, 0, 1) == Some([]) && [] + [part] == [part];
    assert EncodeMembers(g, ms, 1, 1) == Some([part]);
    OneMemberTable(g, 2, key);
    assert EncodeNode(g, 0, 0) == EncodeObject(g, Ref(2), 0);
  }

  lemma EmptyTable(g: Graph, id: nat, depth: nat)
    requires Closed(g) && id in g && g[id] == Table([]) && depth <= MAX_ENCODE_DEPTH
    ensures EncodeObject(g, Ref(id), depth) == Some([LBRACE, RBRACE]) && Effect(g, Ref(id), depth) == None
  {
    assert EncodeMembers(g, [], 0, depth + 1) == Some([]) && MembersEffect(g, [], 0, depth + 1) == None;
    assert Join([]) == [] && [LBRACE] + [] + [RBRACE] == [LBRACE, RBRACE];
  }

  lemma OneMemberTable(g: Graph, id: nat, key: bytes)
    requires Closed(g) && id in g && g[id] == Table([Member(Some(key), Null, None)])
    ensures EncodeObject(g, Ref(id), 0) == Some([LBRACE] + KeyText(key) + NULL_TOKEN + [RBRACE])
  {
    var ms := [Member(Some(key), Null, None)];
    var part := KeyText(key) + NULL_TOKEN;
    assert EncodeMembers(g, ms, 0, 1) == Some([]) && [] + [part] == [part];
    assert EncodeMember(g, ms[0], 1) == Some(part);
    assert EncodeMembers(g, ms, 1, 1) == Some([part]) && Join([part]) == part;
    assert [LBRACE] + part + [RBRACE] == [LBRACE] + KeyText(key) + NULL_TOKEN + [RBRACE];
  }

  // ---------- Depth only decides whether there is a text ----------

  /** What can be encoded at a depth is encoded the same, with the same effect, at every smaller one. */
  lemma {:induction false} ShallowerIsSame(g: Graph, o: Object, d: nat, e: nat)
    requires Closed(g) && Known(g, o) && d <= e && EncodeObject(g, o, e).Some?
    ensures EncodeObject(g, o, d) == EncodeObject(g, o, e) && Effect(g, o, d) == Effect(g, o, e)
    decreases Budget(e), Rank(g, o), 1
  {
    hide Closed, EncodeNode, NodeEffect, QuotedText;
    if o.Ref? {
      ShallowerNode(g, o.id, d, e);
    }
  }

  lemma {:induction false} ShallowerNode(g: Graph, id: nat, d: nat, e: nat)
    requires Closed(g) && id in g && d <= e <= MAX_ENCODE_DEPTH && EncodeNode(g, id, e).Some?
    ensures EncodeNode(g, id, d) == EncodeNode(g, id, e) && NodeEffect(g, id, d) == NodeEffect(g, id, e)
    decreases Budget(e), Rank(g, Ref(id)), 0
  {
    hide EncodeObject, EncodeMembers, EncodeElements, Effect, MembersEffect, ElementsEffect, QuotedText, Join;
    assert NodeKnown(g, g[id]);
    match g[id]
    case Table(ms) => ShallowerMembers(g, ms, |ms|, d + 1, e + 1);
    case Array(es) => ShallowerElements(g, es, |es|, d + 1, e + 1);
    case Serializes(r, _) => ShallowerIsSame(g, r.value, d + 1, e + 1);
    case Instance(ms, error, cls) =>
      ShallowerMembers(g, ms, |ms|, d + 1, e + 1);
      if IterationFails(g, ms, error, e) {
        ShallowerIsSame(g, Ref(cls), d, e);
      }
    case _ =>
  }

  lemma {:induction false} ShallowerMembers(g: Graph, ms: seq<Member>, n: nat, d: nat, e: nat)
    requires Closed(g) && AllKnown(g, ms) && n <= |ms| && d <= e && EncodeMembers(g, ms, n, e).Some?
    ensures EncodeMembers(g, ms, n, d) == EncodeMembers(g, ms, n, e)
    ensures MembersEffect(g, ms, n, d) == MembersEffect(g, ms, n, e)
    decreases Budget(e), 2, n
  {
    hide Closed, EncodeObject, Effect;
    if n > 0 {
      ShallowerMembers(g, ms, n - 1, d, e);
      if !ms[n - 1].value.Function? {
        ShallowerIsSame(g, ms[n - 1].value, d, e);
      }
    }
  }

  lemma {:induction false} ShallowerElements(g: Graph, es: seq<Object>, n: nat, d: nat, e: nat)
    requires Closed(g) && n <= |es| && d <= e && forall i | 0 <= i < |es| :: Known(g, es[i])
    requires EncodeElements(g, es, n, e).Some?
    ensures EncodeElements(g, es, n, d) == EncodeElements(g, es, n, e)
    ensures ElementsEffect(g, es, n, d) == ElementsEffect(g, es, n, e)
    decreases Budget(e), 2, n
  {
    hide Closed, EncodeObject, Effect;
    if n > 0 {
      ShallowerElements(g, es, n - 1, d, e);
      ShallowerIsSame(g, es[n - 1], d, e);
    }
  }

  // ---------- When encoding fails ----------

  /** Steps from an object at this depth to one that its encoding encodes: one deeper, or at the same
      depth from an instance whose iteration fails to its class. */
  ghost predicate Leads(g: Graph, a: Object, b: Object, deeper: bool, depth: nat)
    requires Closed(g)
  {
    a.Ref? && a.id in g && depth <= MAX_ENCODE_DEPTH && NodeKnown(g, g[a.id]) &&
    match g[a.id]
    case Table(ms) => deeper && HasValue(ms, b)
    case Array(es) => deeper && b in es
    case Serializes(r, _) => deeper && r == Some(b)
    case Instance(ms, error, cls) =>
      if deeper then HasValue(ms, b) else IterationFails(g, ms, error, depth) && b == Ref(cls)
    case _ => false
  }

  ghost predicate HasValue(ms: seq<Member>, o: Object) {
    !o.Function? && exists i | 0 <= i < |ms| :: ms[i].value == o
  }

  datatype Walk = Here | Via(deeper: bool, next: Object, rest: Walk)

  function Below(depth: nat, deeper: bool): nat {
    if deeper then depth + 1 else depth
  }

  ghost predicate IsWalk(g: Graph, o: Object, w: Walk, depth: nat)
    requires Closed(g)
    decreases w
  {
    w.Via? ==> Leads(g, o, w.next, w.deeper, depth) && IsWalk(g, w.next, w.rest, Below(depth, w.deeper))
  }

  function End(o: Object, w: Walk): Object
    decreases w
  {
    if w.Here? then o else End(w.next, w.rest)
  }

  /** How much deeper the end of the walk is. */
  function Deeper(w: Walk): nat {
    if w.Here? then 0 else (if w.deeper then 1 else 0) + Deeper(w.rest)
  }

  /** Objects that cannot be encoded at any depth, whatever they refer to. */
  ghost predicate Stuck(g: Graph, o: Object) {
    match o
    case Function => true
    case Unserializable => true
    case Text(data) => QuotedText(data).None?
    case Ref(id) => id in g && (
      match g[id]
      case Table(ms) => NamelessMember(ms)
      case Blob(data) => QuotedText(data).None?
      case SerializesRaw(text, _) => text.None?
      case Serializes(r, _) => r.None?
      case Instance(ms, _, _) => NamelessMember(ms)
      case Array(_) => false)
    case _ => false
  }

  ghost predicate NamelessMember(ms: seq<Member>) {
    exists i | 0 <= i < |ms| :: !ms[i].value.Function? && ms[i].key.None?
  }

  lemma LeadsToKnown(g: Graph, a: Object, b: Object, deeper: bool, depth: nat)
    requires Closed(g) && Leads(g, a, b, deeper, depth)
    ensures Known(g, a) && Known(g, b)
  {
  }

  lemma {:induction false} ElementsFailIff(g: Graph, es: seq<Object>, n: nat, depth: nat)
    requires Closed(g) && n <= |es| && forall i | 0 <= i < |es| :: Known(g, es[i])
    ensures EncodeElements(g, es, n, depth).None? <==> exists i | 0 <= i < n :: EncodeObject(g, es[i], depth).None?
    decreases n
  {
    hide Closed, EncodeObject;
    if n > 0 {
      ElementsFailIff(g, es, n - 1, depth);
    }
  }

  ghost predicate MemberFails(g: Graph, ms: seq<Member>, i: nat, depth: nat)
    requires Closed(g) && AllKnown(g, ms) && i < |ms|
  {
    !ms[i].value.Function? && EncodeMember(g, ms[i], depth).None?
  }

  lemma {:induction false} MembersFailIff(g: Graph, ms: seq<Member>, n: nat, depth: nat)
    requires Closed(g) && AllKnown(g, ms) && n <= |ms|
    ensures EncodeMembers(g, ms, n, depth).None? <==> exists i: nat | i < n :: MemberFails(g, ms, i, depth)
    decreases n
  {
    hide Closed, AllKnown, EncodeMember;
    if n > 0 {
      MembersFailIff(g, ms, n - 1, depth);
      if EncodeMembers(g, ms, n, depth).None? && EncodeMembers(g, ms, n - 1, depth).Some? {
        assert MemberFails(g, ms, n - 1, depth);
      }
    }
  }

  /** What cannot be encoded where a step leads to makes its start fail too. */
  lemma LeadFails(g: Graph, a: Object, b: Object, deeper: bool, depth: nat)
    requires Closed(g) && Leads(g, a, b, deeper, depth) && Known(g, a) && Known(g, b)
    requires EncodeObject(g, b, Below(depth, deeper)).None?
    ensures EncodeObject(g, a, depth).None?
  {
    hide EncodeMembers, EncodeElements, IterationFails;
    match g[a.id]
    case Table(ms) => ValueFails(g, ms, b, depth + 1);
    case Array(es) => ElementsFailIff(g, es, |es|, depth + 1);
    case Instance(ms, error, cls) =>
      if deeper {
        ValueFails(g, ms, b, depth + 1);
      }
    case _ =>
  }

  lemma ValueFails(g: Graph, ms: seq<Member>, b: Object, depth: nat)
    requires Closed(g) && AllKnown(g, ms) && HasValue(ms, b) && Known(g, b) && EncodeObject(g, b, depth).None?
    ensures EncodeMembers(g, ms, |ms|, depth).None?
  {
    hide Closed, AllKnown, EncodeObject;
    MembersFailIff(g, ms, |ms|, depth);
    var i: nat :| i < |ms| && ms[i].value == b;
    assert MemberFails(g, ms, i, depth);
  }

  lemma {:induction false} WalkFails(g: Graph, o: Object, w: Walk, depth: nat)
    requires Closed(g) && Known(g, o) && IsWalk(g, o, w, depth)
    ensures Known(g, End(o, w))
    ensures EncodeObject(g, End(o, w), depth + Deeper(w)).None? ==> EncodeObject(g, o, depth).None?
    decreases w
  {
    hide EncodeObject, Closed, Leads;
    if w.Via? {
      LeadsToKnown(g, o, w.next, w.deeper, depth);
      WalkFails(g, w.next, w.rest, Below(depth, w.deeper));
      if EncodeObject(g, End(o, w), depth + Deeper(w)).None? {
        LeadFails(g, o, w.next, w.deeper, depth);
      }
    }
  }

  lemma StuckFails(g: Graph, o: Object, depth: nat)
    requires Closed(g) && Known(g, o) && Stuck(g, o)
    ensures EncodeObject(g, o, depth).None?
  {
    hide EncodeMembers;
    if o.Ref? && depth <= MAX_ENCODE_DEPTH {
      assert NodeKnown(g, g[o.id]);
      match g[o.id]
      case Table(ms) => NamelessFails(g, ms, depth + 1);
      case Instance(ms, _, _) => NamelessFails(g, ms, depth + 1);
      case _ =>
    }
  }

  lemma NamelessFails(g: Graph, ms: seq<Member>, depth: nat)
    requires Closed(g) && AllKnown(g, ms) && NamelessMember(ms)
    ensures EncodeMembers(g, ms, |ms|, depth).None?
  {
    hide Closed, EncodeObject;
    MembersFailIff(g, ms, |ms|, depth);
    var i: nat :| i < |ms| && !ms[i].value.Function? && ms[i].key.None?;
    assert MemberFails(g, ms, i, depth);
  }

  /** Why an encoding fails: a walk to something too deep or stuck. */
  ghost predicate Doomed(g: Graph, o: Object, depth: nat, w: Walk)
    requires Closed(g)
  {
    IsWalk(g, o, w, depth) && (depth + Deeper(w) > MAX_ENCODE_DEPTH || Stuck(g, End(o, w)))
  }

  lemma {:induction false} FailureHasReason(g: Graph, o: Object, depth: nat) returns (w: Walk)
    requires Closed(g) && Known(g, o) && EncodeObject(g, o, depth).None?
    ensures Doomed(g, o, depth, w)
    decreases Budget(depth), Rank(g, o), 1
  {
    hide EncodeMembers, EncodeElements, IterationFails;
    w := Here;
    if depth <= MAX_ENCODE_DEPTH && o.Ref? {
      assert NodeKnown(g, g[o.id]);
      match g[o.id]
      case Table(ms) => w := MembersReason(g, o, ms, depth);
      case Array(es) =>
        ElementsFailIff(g, es, |es|, depth + 1);
        var i :| 0 <= i < |es| && EncodeObject(g, es[i], depth + 1).None?;
        var rest := FailureHasReason(g, es[i], depth + 1);
        w := Via(true, es[i], rest);
      case Serializes(r, _) =>
        if r.Some? {
          var rest := FailureHasReason(g, r.value, depth + 1);
          w := Via(true, r.value, rest);
        }
      case Instance(ms, error, cls) =>
        if EncodeMembers(g, ms, |ms|, depth + 1).None? {
          w := MembersReason(g, o, ms, depth);
        } else {
          var rest := FailureHasReason(g, Ref(cls), depth);
          w := Via(false, Ref(cls), rest);
        }
      case _ =>
    }
  }

  lemma {:induction false} MembersReason(g: Graph, o: Object, ms: seq<Member>, depth: nat) returns (w: Walk)
    requires Closed(g) && o.Ref? && o.id in g && depth <= MAX_ENCODE_DEPTH
    requires match g[o.id] case Table(ms') => ms' == ms case Instance(ms', _, _) => ms' == ms case _ => false
    requires AllKnown(g, ms) && EncodeMembers(g, ms, |ms|, depth + 1).None?
    ensures Doomed(g, o, depth, w)
    decreases Budget(depth), 0, 0
  {
    hide EncodeObject, EncodeMembers;
    MembersFailIff(g, ms, |ms|, depth + 1);
    var i: nat :| i < |ms| && MemberFails(g, ms, i, depth + 1);
    if ms[i].key.None? {
      assert NamelessMember(ms);
      w := Here;
    } else {
      var rest := FailureHasReason(g, ms[i].value, depth + 1);
      w := Via(true, ms[i].value, rest);
    }
  }

  /** Encoding fails if and only if some walk leads deeper than the limit or to an object that
      cannot be encoded. */
  lemma EncodingFailsIff(g: Graph, o: Object, depth: nat)
    requires Closed(g) && Known(g, o)
    ensures EncodeObject(g, o, depth).None? <==> exists w :: Doomed(g, o, depth, w)
  {
    hide Leads, EncodeNode, Closed;
    if EncodeObject(g, o, depth).None? {
      var w := FailureHasReason(g, o, depth);
    }
    if w :| Doomed(g, o, depth, w) {
      WalkFails(g, o, w, depth);
      if depth + Deeper(w) <= MAX_ENCODE_DEPTH {
        StuckFails(g, End(o, w), depth + Deeper(w));
      }
    }
  }

  // ---------- Cycles ----------

  /** The members may be left for the class: their iteration fails wherever they can be encoded. */
  ghost predicate HandsOver(g: Graph, ms: seq<Member>, error: bool)
    requires Closed(g) && AllKnown(g, ms)
  {
    forall d: nat | d <= MAX_ENCODE_DEPTH && EncodeMembers(g, ms, |ms|, d + 1).Some? :: IterationFails(g, ms, error, d)
  }

  /** Any depth at which the members can be encoded decides about all of them. */
  lemma HandsOverIff(g: Graph, ms: seq<Member>, error: bool, depth: nat)
    requires Closed(g) && AllKnown(g, ms) && depth <= MAX_ENCODE_DEPTH
    requires EncodeMembers(g, ms, |ms|, depth + 1).Some?
    ensures HandsOver(g, ms, error) <==> IterationFails(g, ms, error, depth)
  {
    hide Closed, EncodeMembers, MembersEffect;
    forall d: nat | d <= MAX_ENCODE_DEPTH && EncodeMembers(g, ms, |ms|, d + 1).Some?
      ensures IterationFails(g, ms, error, d) == IterationFails(g, ms, error, depth)
    {
      if d <= depth {
        ShallowerMembers(g, ms, |ms|, d + 1, depth + 1);
      } else {
        ShallowerMembers(g, ms, |ms|, depth + 1, d + 1);
      }
    }
  }

  /** The references of an object, whatever the depth: its members that are not functions, its elements, what its
      _serialize returns and, not counted as deeper, the class of an instance that hands over to it. */
  ghost predicate Refers(g: Graph, a: Object, b: Object, deeper: bool)
    requires Closed(g)
  {
    a.Ref? && a.id in g && NodeKnown(g, g[a.id]) &&
    match g[a.id]
    case Table(ms) => deeper && HasValue(ms, b)
    case Array(es) => deeper && b in es
    case Serializes(r, _) => deeper && r == Some(b)
    case Instance(ms, error, cls) => if deeper then HasValue(ms, b) else HandsOver(g, ms, error) && b == Ref(cls)
    case _ => false
  }

  ghost predicate IsPath(g: Graph, o: Object, w: Walk)
    requires Closed(g)
    decreases w
  {
    w.Via? ==> Refers(g, o, w.next, w.deeper) && IsPath(g, w.next, w.rest)
  }

  lemma RefersToKnown(g: Graph, a: Object, b: Object, deeper: bool)
    requires Closed(g) && Refers(g, a, b, deeper)
    ensures Known(g, a) && Known(g, b)
  {
  }

  lemma ReferenceFails(g: Graph, a: Object, b: Object, deeper: bool, depth: nat)
    requires Closed(g) && Refers(g, a, b, deeper) && Known(g, a) && Known(g, b)
    requires EncodeObject(g, b, Below(depth, deeper)).None?
    ensures EncodeObject(g, a, depth).None?
  {
    hide EncodeMembers, EncodeElements, IterationFails, HasValue;
    if depth <= MAX_ENCODE_DEPTH {
      if g[a.id].Instance? && !deeper && EncodeMembers(g, g[a.id].members, |g[a.id].members|, depth + 1).None? {
        assert EncodeNode(g, a.id, depth).None?;
      } else {
        assert Leads(g, a, b, deeper, depth);
        LeadFails(g, a, b, deeper, depth);
      }
    }
  }

  /** At every depth, what cannot be encoded at the end of a path makes its start fail. */
  lemma {:induction false} PathFails(g: Graph, o: Object, w: Walk, depth: nat)
    requires Closed(g) && Known(g, o) && IsPath(g, o, w)
    ensures Known(g, End(o, w))
    ensures EncodeObject(g, End(o, w), depth + Deeper(w)).None? ==> EncodeObject(g, o, depth).None?
    decreases w
  {
    hide EncodeObject, Closed, Refers;
    if w.Via? {
      RefersToKnown(g, o, w.next, w.deeper);
      PathFails(g, w.next, w.rest, Below(depth, w.deeper));
      if EncodeObject(g, End(o, w), depth + Deeper(w)).None? {
        ReferenceFails(g, o, w.next, w.deeper, depth);
      }
    }
  }

  /** A path back to where it started goes deeper: a class is a table, not an instance. */
  lemma LoopGoesDeeper(g: Graph, o: Object, loop: Walk)
    requires Closed(g) && IsPath(g, o, loop) && loop.Via? && End(o, loop) == o
    ensures Deeper(loop) > 0
  {
    hide HandsOver, HasValue;
    if !loop.deeper {
      assert NodeKnown(g, g[o.id]);
    }
  }

  /** A reachable cycle, however long it is and however far away, ends in an error at every depth. */
  lemma CycleFails(g: Graph, o: Object, way: Walk, loop: Walk, depth: nat)
    requires Closed(g) && Known(g, o) && IsPath(g, o, way)
    requires var c := End(o, way); IsPath(g, c, loop) && loop.Via? && End(c, loop) == c
    ensures EncodeObject(g, o, depth).None?
  {
    hide EncodeObject, Closed, IsPath;
    var c := End(o, way);
    PathFails(g, o, way, depth);
    LoopGoesDeeper(g, c, loop);
    LoopFails(g, c, loop, depth + Deeper(way));
  }

  /** Once round the loop is deeper, and beyond the limit nothing can be encoded. */
  lemma {:induction false} LoopFails(g: Graph, c: Object, loop: Walk, depth: nat)
    requires Closed(g) && Known(g, c) && IsPath(g, c, loop) && End(c, loop) == c && Deeper(loop) > 0
    ensures EncodeObject(g, c, depth).None?
    decreases Budget(depth)
  {
    hide EncodeNode, Closed, IsPath;
    if depth <= MAX_ENCODE_DEPTH {
      LoopFails(g, c, loop, depth + Deeper(loop));
      PathFails(g, c, loop, depth);
    }
  }

  function Successor(n: nat, i: nat): nat
    requires i < n
  {
    if i + 1 == n then 0 else i + 1
  }

  /** The first `n` objects are arrays that hold the next one only, the last one the first. */
  ghost predicate IsRing(g: Graph, n: nat) {
    forall i: nat | i < n :: i in g && g[i] == Array([Ref(Successor(n, i))])
  }

  function Round(n: nat, i: nat): Walk
    requires i < n
    decreases n - i
  {
    Via(true, Ref(Successor(n, i)), if i + 1 == n then Here else Round(n, i + 1))
  }

  lemma {:induction false} RoundIsPath(g: Graph, n: nat, i: nat)
    requires Closed(g) && i < n && IsRing(g, n)
    ensures IsPath(g, Ref(i), Round(n, i)) && End(Ref(i), Round(n, i)) == Ref(0)
    decreases n - i
  {
    hide Closed, HandsOver, HasValue;
    var next := Ref(Successor(n, i));
    assert g[i] == Array([next]) && NodeKnown(g, g[i]) by { KnownThere(g, i); }
    assert Refers(g, Ref(i), next, true);
    if i + 1 < n {
      RoundIsPath(g, n, i + 1);
    }
  }

  lemma KnownThere(g: Graph, id: nat)
    requires Closed(g) && id in g
    ensures NodeKnown(g, g[id])
  {
  }

  /** No ring is too long to fail. */
  lemma RingsFail(g: Graph, n: nat, depth: nat)
    requires Closed(g) && n > 0 && IsRing(g, n)
    ensures EncodeObject(g, Ref(0), depth).None?
  {
    hide EncodeObject, Closed, Refers;
    RoundIsPath(g, n, 0);
    CycleFails(g, Ref(0), Here, Round(n, 0), depth);
  }
}
