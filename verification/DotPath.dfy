/** Dotted names: each dot steps into the object found under the part before it. */
module DotPath {
  import opened Bytes
  import opened ObjectTable
  import opened Forest
  import opened ValueStore

  // ---------- Looking up ----------

  /** strchr(name, '.') */
  function DotPos(name: bytes): (r: Option<nat>)
    ensures r.Some? ==> r.value < |name| && name[r.value] == DOT
  {
    if name == [] then None
    else if name[0] == DOT then Some(0)
    else match DotPos(name[1..])
      case None => None
      case Some(k) => Some(k + 1)
  }

  predicate IsObject(g: Cells, r: Ref) {
    r in g && g[r].body.ObjectOf?
  }

  /** json_object_getn_value, on an object that may be missing. */
  function GetValue(g: Cells, o: Option<Ref>, name: bytes): Option<Ref> {
    if o.Some? && IsObject(g, o.value) then Lookup(g[o.value].body.entries, name) else None
  }

  /** json_value_get_object */
  function AsObject(g: Cells, v: Option<Ref>): Option<Ref> {
    if v.Some? && IsObject(g, v.value) then v else None
  }

  function DotGet(g: Cells, o: Option<Ref>, name: bytes): Option<Ref>
    decreases |name|
  {
    match DotPos(name)
    case None => GetValue(g, o, name)
    case Some(k) => DotGet(g, AsObject(g, GetValue(g, o, name[..k])), name[k + 1..])
  }

  /** Neither path is a prefix of the other, part by part. */
  predicate Diverges(q: bytes, p: bytes)
    decreases |p|
  {
    match (DotPos(q), DotPos(p))
    case (None, None) => q != p
    case (None, Some(k)) => q != p[..k]
    case (Some(j), None) => q[..j] != p
    case (Some(j), Some(k)) => q[..j] != p[..k] || Diverges(q[j + 1..], p[k + 1..])
  }

  /** The parts between the dots. */
  function Segments(name: bytes): (r: seq<bytes>)
    ensures r != []
    decreases |name|
  {
    match DotPos(name)
    case None => [name]
    case Some(k) => [name[..k]] + Segments(name[k + 1..])
  }

  /** Two paths diverge exactly when neither list of parts is a prefix of the other. */
  lemma {:induction false} DivergesMeans(q: bytes, p: bytes)
    ensures Diverges(q, p) <==> !(Segments(q) <= Segments(p)) && !(Segments(p) <= Segments(q))
    decreases |p|
  {
    var sq, sp := Segments(q), Segments(p);
    if DotPos(q).Some? && DotPos(p).Some? {
      var j, k := DotPos(q).value, DotPos(p).value;
      DivergesMeans(q[j + 1..], p[k + 1..]);
      ConsPrefix(q[..j], Segments(q[j + 1..]), p[..k], Segments(p[k + 1..]));
      ConsPrefix(p[..k], Segments(p[k + 1..]), q[..j], Segments(q[j + 1..]));
    } else if DotPos(q).Some? || DotPos(p).Some? {
      assert |sq| != |sp| && sq[0] == (if DotPos(q).Some? then q[..DotPos(q).value] else q);
      assert sp[0] == (if DotPos(p).Some? then p[..DotPos(p).value] else p);
    } else {
      assert sq == [q] && sp == [p];
      assert sq <= sp ==> sq[0] == sp[0];
    }
  }

  lemma ConsPrefix<T>(a: T, s: seq<T>, b: T, t: seq<T>)
    ensures [a] + s <= [b] + t <==> a == b && s <= t
  {
    if [a] + s <= [b] + t {
      assert ([b] + t)[..|s| + 1] == [a] + s;
      assert t[..|s|] == ([b] + t)[1..|s| + 1] == s;
      assert ([a] + s)[0] == ([b] + t)[0];
    }
    if a == b && s <= t {
      assert [b] + t == ([a] + s) + t[|s|..];
    }
  }

  /** No part but the last of the path names an existing non-object. */
  predicate Settable(g: Cells, o: Ref, name: bytes)
    decreases |name|
  {
    match DotPos(name)
    case None => true
    case Some(k) =>
      match GetValue(g, Some(o), name[..k])
      case None => true
      case Some(t) => IsObject(g, t) && Settable(g, t, name[k + 1..])
  }

  lemma {:induction false} NothingIsMissing(g: Cells, name: bytes)
    ensures DotGet(g, None, name) == None
    decreases |name|
  {
    if DotPos(name).Some? {
      NothingIsMissing(g, name[DotPos(name).value + 1..]);
    }
  }

  /** An object without entries holds no path. */
  lemma EmptyHasNoPath(g: Cells, n: Ref, name: bytes)
    requires n in g && g[n].body == ObjectOf([])
    ensures DotGet(g, Some(n), name) == None
  {
    if DotPos(name).Some? {
      NothingIsMissing(g, name[DotPos(name).value + 1..]);
    }
  }

  // ---------- The parts of a path and the walk along them ----------

  function Joined(parts: seq<bytes>): bytes {
    if parts == [] then []
    else if |parts| == 1 then parts[0]
    else parts[0] + [DOT] + Joined(parts[1..])
  }

  /** The name is made of these parts with a dot between each two, and no part holds a dot. */
  ghost predicate SplitsInto(name: bytes, parts: seq<bytes>) {
    parts != [] && (forall k | 0 <= k < |parts| :: DOT !in parts[k]) && Joined(parts) == name
  }

  /** Plain lookups one after the other, from the left. */
  function Walk(g: Cells, o: Option<Ref>, parts: seq<bytes>): Option<Ref>
    decreases |parts|
  {
    if parts == [] then o else Walk(g, GetValue(g, o, parts[0]), parts[1..])
  }

  /** No part but the last leads to a value that is not an object. */
  ghost predicate MayCreate(g: Cells, o: Ref, parts: seq<bytes>) {
    forall k | 0 < k < |parts| :: PassableAt(g, o, parts, k)
  }

  ghost predicate PassableAt(g: Cells, o: Ref, parts: seq<bytes>, k: nat)
    requires k <= |parts|
  {
    var w := Walk(g, Some(o), parts[..k]);
    w.Some? ==> IsObject(g, w.value)
  }

  lemma {:induction false} FirstDot(a: bytes, b: bytes)
    requires DOT !in a
    ensures DotPos(a) == None && DotPos(a + [DOT] + b) == Some(|a|)
    decreases |a|
  {
    if a == [] {
      assert ([] + [DOT] + b)[0] == DOT;
    } else {
      assert a[0] in a && DOT !in a[1..];
      assert (a + [DOT] + b)[1..] == a[1..] + [DOT] + b;
      FirstDot(a[1..], b);
    }
  }

  /** Only the segments split a name. */
  lemma {:induction false} SplitIsUnique(name: bytes, parts: seq<bytes>)
    requires SplitsInto(name, parts)
    ensures parts == Segments(name)
    decreases |parts|
  {
    assert DOT !in parts[0];
    if |parts| == 1 {
      FirstDot(parts[0], []);
    } else {
      var rest := Joined(parts[1..]);
      FirstDot(parts[0], rest);
      assert name[..|parts[0]|] == parts[0] && name[|parts[0]| + 1..] == rest;
      assert SplitsInto(rest, parts[1..]);
      SplitIsUnique(rest, parts[1..]);
    }
  }

  /** And they do split it. */
  lemma {:induction false} SegmentsSplit(name: bytes)
    ensures SplitsInto(name, Segments(name))
    decreases |name|
  {
    NoDotBefore(name);
    match DotPos(name)
    case None => assert Joined([name]) == name;
    case Some(k) =>
      var rest := Segments(name[k + 1..]);
      SegmentsSplit(name[k + 1..]);
      assert ([name[..k]] + rest)[1..] == rest;
      assert name == name[..k] + [DOT] + name[k + 1..];
  }

  lemma {:induction false} NoDotBefore(name: bytes)
    ensures match DotPos(name) case None => DOT !in name case Some(k) => DOT !in name[..k]
    decreases |name|
  {
    if name != [] && name[0] != DOT {
      NoDotBefore(name[1..]);
      assert name == [name[0]] + name[1..];
      if DotPos(name).Some? {
        var k := DotPos(name).value;
        assert name[..k] == [name[0]] + name[1..][..k - 1];
      }
    }
  }

  lemma SplitStep(name: bytes, parts: seq<bytes>)
    requires SplitsInto(name, parts)
    ensures |parts| == 1 ==> DotPos(name) == None && parts[0] == name
    ensures |parts| > 1 ==>
              && DotPos(name) == Some(|parts[0]|) && name[..|parts[0]|] == parts[0]
              && SplitsInto(name[|parts[0]| + 1..], parts[1..])
  {
    assert DOT !in parts[0];
    if |parts| == 1 {
      FirstDot(parts[0], []);
    } else {
      var rest := Joined(parts[1..]);
      FirstDot(parts[0], rest);
      assert name[..|parts[0]|] == parts[0] && name[|parts[0]| + 1..] == rest;
    }
  }

  /** A dotted lookup is the walk along the parts of its name. */
  lemma {:induction false} DotGetWalks(g: Cells, o: Option<Ref>, name: bytes, parts: seq<bytes>)
    requires SplitsInto(name, parts)
    ensures DotGet(g, o, name) == Walk(g, o, parts)
    decreases |parts|
  {
    hide SplitsInto, Lookup;
    SplitStep(name, parts);
    assert parts != [] by { HasParts(name, parts); }
    var next := GetValue(g, o, parts[0]);
    if |parts| == 1 {
      assert Walk(g, next, parts[1..]) == next;
    } else {
      var rest := name[|parts[0]| + 1..];
      DotGetWalks(g, next, rest, parts[1..]);
      ObjectOrNothing(g, next, rest);
    }
  }

  lemma HasParts(name: bytes, parts: seq<bytes>)
    requires SplitsInto(name, parts)
    ensures parts != []
  {
  }

  /** What is no object holds nothing, just as what is missing. */
  lemma ObjectOrNothing(g: Cells, v: Option<Ref>, name: bytes)
    ensures DotGet(g, AsObject(g, v), name) == DotGet(g, v, name)
  {
    hide Lookup;
  }

  lemma {:induction false} NothingIsWalked(g: Cells, parts: seq<bytes>)
    ensures Walk(g, None, parts) == None
    decreases |parts|
  {
    if parts != [] {
      NothingIsWalked(g, parts[1..]);
    }
  }

  /** Setting is possible exactly if the walk meets no other value before the last part. */
  lemma {:induction false} SettableIff(g: Cells, o: Ref, name: bytes, parts: seq<bytes>)
    requires SplitsInto(name, parts)
    ensures Settable(g, o, name) <==> MayCreate(g, o, parts)
    decreases |parts|
  {
    hide SplitsInto, Lookup, PassableAt;
    SplitStep(name, parts);
    assert parts != [] by { HasParts(name, parts); }
    if |parts| > 1 {
      var next, rest := GetValue(g, Some(o), parts[0]), name[|parts[0]| + 1..];
      FirstPassable(g, o, parts);
      forall k: nat | 1 < k < |parts| ensures PassableAt(g, o, parts, k) ==
          (next.None? || PassableAt(g, next.value, parts[1..], k - 1)) {
        LaterPassable(g, o, parts, k);
      }
      if next.Some? {
        SettableIff(g, next.value, rest, parts[1..]);
        assert forall k: nat | 0 < k < |parts[1..]| ::
            PassableAt(g, next.value, parts[1..], k) == PassableAt(g, o, parts, k + 1);
      }
    }
  }

  lemma FirstPassable(g: Cells, o: Ref, parts: seq<bytes>)
    requires |parts| > 1
    ensures PassableAt(g, o, parts, 1)
            <==> var next := GetValue(g, Some(o), parts[0]); next.Some? ==> IsObject(g, next.value)
  {
    var next := GetValue(g, Some(o), parts[0]);
    assert parts[..1][1..] == [] && parts[..1][0] == parts[0];
    assert Walk(g, next, []) == next;
    assert Walk(g, Some(o), parts[..1]) == Walk(g, next, parts[..1][1..]);
  }

  lemma LaterPassable(g: Cells, o: Ref, parts: seq<bytes>, k: nat)
    requires 1 < k < |parts|
    ensures var next := GetValue(g, Some(o), parts[0]);
            PassableAt(g, o, parts, k) == (next.None? || PassableAt(g, next.value, parts[1..], k - 1))
  {
    assert parts[..k][1..] == parts[1..][..k - 1] && parts[..k][0] == parts[0];
    NothingIsWalked(g, parts[1..][..k - 1]);
  }

  // ---------- What lookups depend on ----------

  ghost predicate SameBodiesBelow(g: Cells, g': Cells, t: Ref) {
    forall x | x in g && Below(g, x, t) :: x in g' && g'[x].body == g[x].body
  }

  lemma BodyBelow(g: Cells, g': Cells, t: Ref, x: Ref)
    requires SameBodiesBelow(g, g', t) && x in g && Below(g, x, t)
    ensures x in g' && g'[x].body == g[x].body
  {
  }

  lemma ChildOf(g: Cells, o: Ref, name: bytes, t: Ref)
    requires IsForest(g) && IsObject(g, o) && GetValue(g, Some(o), name) == Some(t)
    ensures t in g && g[t].parent == Some(o) && Below(g, t, o) && t in Kids(g[o].body)
    ensures forall x | x in g && Below(g, x, t) :: Below(g, x, o)
    ensures !Below(g, o, t)
  {
    var es := g[o].body.entries;
    ValuesHas(es, Find(es, name));
    KidSubtree(g, o, t);
    BelowSelf(g, o);
    BelowParent(g, t, o);
    ParentIsNotBelow(g, o, t);
    forall x | x in g && Below(g, x, t) ensures Below(g, x, o) {
      BelowTransitive(g, x, t, o);
    }
  }

  /** A lookup from `t` depends only on what is below `t`. */
  lemma {:induction false} DotGetFrame(g: Cells, g': Cells, t: Ref, q: bytes)
    requires IsForest(g) && t in g && SameBodiesBelow(g, g', t)
    ensures DotGet(g', Some(t), q) == DotGet(g, Some(t), q)
    decreases |q|
  {
    hide IsForest, Below, SameBodiesBelow, Kids, Lookup;
    BelowSelf(g, t);
    BodyBelow(g, g', t, t);
    if DotPos(q).Some? {
      var k := DotPos(q).value;
      var u := GetValue(g, Some(t), q[..k]);
      NothingIsMissing(g, q[k + 1..]);
      NothingIsMissing(g', q[k + 1..]);
      if u.Some? {
        ChildOf(g, t, q[..k], u.value);
        BodyBelow(g, g', t, u.value);
        SameBelowChild(g, g', t, u.value);
        if IsObject(g, u.value) {
          DotGetFrame(g, g', u.value, q[k + 1..]);
        }
      }
    }
  }

  lemma SameBelowChild(g: Cells, g': Cells, t: Ref, u: Ref)
    requires SameBodiesBelow(g, g', t) && forall x | x in g && Below(g, x, u) :: Below(g, x, t)
    ensures SameBodiesBelow(g, g', u)
  {
  }

  // ---------- The effect of a successful set ----------

  ghost predicate Untouched(g: Cells, g': Cells, o: Ref, v: Ref) {
    forall x | x in g && !Below(g, x, o) && x != v :: x in g' && g'[x] == g[x]
  }

  ghost predicate OthersKept(g: Cells, g': Cells, o: Ref, name: bytes) {
    forall q {:trigger SameLookup(g, g', o, q)} | Diverges(q, name) :: SameLookup(g, g', o, q)
  }

  ghost predicate SameLookup(g: Cells, g': Cells, o: Ref, q: bytes) {
    DotGet(g', Some(o), q) == DotGet(g, Some(o), q)
  }

  /** After setting `name` in `o` to `v`: the path leads to `v`, every path that is neither a prefix
      nor an extension keeps its lookup, and nothing outside `o` but `v`'s parent has changed. */
  ghost predicate SetEffect(g: Cells, g': Cells, o: Ref, name: bytes, v: Ref) {
    && DotGet(g', Some(o), name) == Some(v)
    && OthersKept(g, g', o, name)
    && Untouched(g, g', o, v)
    && v in g && v in g' && g'[v].body == g[v].body
    && IsObject(g, o) && IsObject(g', o) && g'[o].parent == g[o].parent
  }

  lemma TouchedNot(g: Cells, g': Cells, o: Ref, v: Ref, x: Ref)
    requires Untouched(g, g', o, v) && x in g && !Below(g, x, o) && x != v
    ensures x in g' && g'[x] == g[x]
  {
  }

  /** A root that does not contain `o` is nowhere below `o`. */
  lemma RootIsElsewhere(g: Cells, o: Ref, v: Ref)
    requires v in g && g[v].parent.None? && !Below(g, o, v)
    ensures !Below(g, v, o)
  {
    if Below(g, v, o) {
      BelowSelf(g, o);
    }
  }

  // ---------- Set without a dot ----------

  lemma PlainSetEffect(g: Cells, o: Ref, name: bytes, v: Ref)
    requires IsForest(g) && IsObject(g, o) && v in g && g[v].parent.None? && !Below(g, o, v)
    requires DotPos(name).None?
    ensures SetEffect(g, SetResult(g, o, name, v), o, name, v)
  {
    hide IsForest, Below, Subtree, DotGet, Diverges, SetResult, Lookup, Find, SetEntry, GetValue, Untouched;
    var g' := SetResult(g, o, name, v);
    SetResultFacts(g, o, name, v);
    SetLookup(g[o].body.entries, name, v, name);
    DotGetPlain(g', o, name);
    forall q | Diverges(q, name) ensures DotGet(g', Some(o), q) == DotGet(g, Some(o), q) {
      PlainSetOther(g, o, name, v, q);
    }
  }

  lemma DotGetPlain(g: Cells, o: Ref, name: bytes)
    requires DotPos(name).None? && IsObject(g, o)
    ensures DotGet(g, Some(o), name) == Lookup(g[o].body.entries, name)
  {
    hide Lookup;
  }

  lemma DotGetStep(g: Cells, o: Ref, name: bytes)
    requires DotPos(name).Some? && IsObject(g, o)
    ensures var k := DotPos(name).value;
            DotGet(g, Some(o), name) ==
            DotGet(g, AsObject(g, Lookup(g[o].body.entries, name[..k])), name[k + 1..])
  {
    hide Lookup, AsObject;
  }

  lemma SetLookup(es: seq<Entry<Ref>>, name: bytes, v: Ref, n: bytes)
    ensures Lookup(SetEntry(es, name, v), n) == if n == name then Some(v) else Lookup(es, n)
  {
    if Find(es, name) < |es| {
      LookupAfterReplace(es, name, v, n);
    } else {
      LookupAfterAppend(es, name, v, n);
    }
  }

  /** Everything below a sibling of the slot being set keeps its body. */
  lemma SetResultFacts(g: Cells, o: Ref, name: bytes, v: Ref)
    requires IsForest(g) && IsObject(g, o) && v in g && g[v].parent.None? && !Below(g, o, v)
    ensures var g' := SetResult(g, o, name, v);
            && o != v && IsObject(g', o) && g'[o].parent == g[o].parent
            && g'[o].body.entries == SetEntry(g[o].body.entries, name, v)
            && v in g' && g'[v].body == g[v].body
            && Untouched(g, g', o, v)
  {
    var g', es := SetResult(g, o, name, v), g[o].body.entries;
    BelowSelf(g, o);
    if Find(es, name) < |es| {
      var c := es[Find(es, name)].value;
      ChildOf(g, o, name, c);
      RootOutside(g, o, c, v);
      assert forall x | x in Subtree(g, c) :: Below(g, x, o);
    }
  }

  lemma SetKeepsSibling(g: Cells, o: Ref, name: bytes, v: Ref, f: bytes, t: Ref)
    requires IsForest(g) && IsObject(g, o) && v in g && g[v].parent.None? && !Below(g, o, v)
    requires f != name && GetValue(g, Some(o), f) == Some(t)
    ensures t in g && SameBodiesBelow(g, SetResult(g, o, name, v), t)
  {
    hide IsForest, Below, Kids;
    var g', es := SetResult(g, o, name, v), g[o].body.entries;
    ChildOf(g, o, f, t);
    forall x | x in g && Below(g, x, t) ensures x in g' && g'[x].body == g[x].body {
      if Find(es, name) < |es| {
        var c := es[Find(es, name)].value;
        ChildOf(g, o, name, c);
        DifferentNames(g, o, name, c, f, t);
        SiblingsAreApart(g, o, t, c, x);
      }
    }
  }

  /** Different names hold different children. */
  lemma DifferentNames(g: Cells, o: Ref, name: bytes, c: Ref, f: bytes, t: Ref)
    requires IsForest(g) && IsObject(g, o) && name != f
    requires GetValue(g, Some(o), name) == Some(c) && GetValue(g, Some(o), f) == Some(t)
    ensures c != t
  {
    var es := g[o].body.entries;
    assert GoodBody(g[o].body);
    var i, j := Find(es, name), Find(es, f);
    assert Values(es)[i] == c && Values(es)[j] == t;
  }

  lemma PlainSetOther(g: Cells, o: Ref, name: bytes, v: Ref, q: bytes)
    requires IsForest(g) && IsObject(g, o) && v in g && g[v].parent.None? && !Below(g, o, v)
    requires DotPos(name).None? && Diverges(q, name)
    ensures DotGet(SetResult(g, o, name, v), Some(o), q) == DotGet(g, Some(o), q)
  {
    hide IsForest, Below, Subtree, DotGet, SetResult, Lookup, Find, SetEntry, SameBodiesBelow, Untouched, Kids;
    var g' := SetResult(g, o, name, v);
    SetResultFacts(g, o, name, v);
    if DotPos(q).None? {
      DotGetPlain(g, o, q);
      DotGetPlain(g', o, q);
      SetLookup(g[o].body.entries, name, v, q);
    } else {
      var k := DotPos(q).value;
      DotGetStep(g, o, q);
      DotGetStep(g', o, q);
      SetLookup(g[o].body.entries, name, v, q[..k]);
      var t := Lookup(g[o].body.entries, q[..k]);
      NothingIsMissing(g, q[k + 1..]);
      NothingIsMissing(g', q[k + 1..]);
      if t.Some? {
        SetKeepsSibling(g, o, name, v, q[..k], t.value);
        StepKept(g, g', t.value, q[k + 1..]);
      }
    }
  }

  /** Stepping into an unchanged child finds what it found before. */
  lemma StepKept(g: Cells, g': Cells, t: Ref, rest: bytes)
    requires IsForest(g) && t in g && SameBodiesBelow(g, g', t)
    ensures DotGet(g', AsObject(g', Some(t)), rest) == DotGet(g, AsObject(g, Some(t)), rest)
  {
    hide IsForest, Below, SameBodiesBelow;
    BelowSelf(g, t);
    BodyBelow(g, g', t, t);
    DotGetFrame(g, g', t, rest);
    NothingIsMissing(g, rest);
    NothingIsMissing(g', rest);
  }

  // ---------- Set below an existing object ----------

  lemma StepSetEffect(g: Cells, g': Cells, o: Ref, name: bytes, v: Ref, t: Ref)
    requires IsForest(g) && IsObject(g, o) && v in g && g[v].parent.None? && !Below(g, o, v)
    requires DotPos(name).Some? && GetValue(g, Some(o), name[..DotPos(name).value]) == Some(t) && IsObject(g, t)
    requires SetEffect(g, g', t, name[DotPos(name).value + 1..], v)
    ensures SetEffect(g, g', o, name, v)
  {
    hide IsForest, Below, Kids, DotGet, Lookup, Find, Untouched, OthersKept, Diverges;
    var k := DotPos(name).value;
    ChildOf(g, o, name[..k], t);
    BelowSelf(g, o);
    TouchedNot(g, g', t, v, o);
    DotGetStep(g', o, name);
    UntouchedAbove(g, g', t, o, v);
    RootIsElsewhere(g, o, v);
    FromEffect(g, g', t, name[k + 1..], v);
    StepOthersKept(g, g', o, name, v, t);
  }

  lemma UntouchedAbove(g: Cells, g': Cells, t: Ref, o: Ref, v: Ref)
    requires Untouched(g, g', t, v) && forall x | x in g && Below(g, x, t) :: Below(g, x, o)
    ensures Untouched(g, g', o, v)
  {
  }

  /** A change confined to what is below one child of `o`, and to `w`, keeps the other paths of `o`. */
  lemma StepOthersKept(g: Cells, g': Cells, o: Ref, name: bytes, w: Ref, t: Ref)
    requires IsForest(g) && IsObject(g, o) && (w == t || !Below(g, w, o))
    requires DotPos(name).Some? && GetValue(g, Some(o), name[..DotPos(name).value]) == Some(t)
    requires IsObject(g, t) && IsObject(g', t) && o in g' && g'[o] == g[o]
    requires OthersKept(g, g', t, name[DotPos(name).value + 1..]) && Untouched(g, g', t, w)
    ensures OthersKept(g, g', o, name)
  {
    hide IsForest, Below, Kids, DotGet, Lookup, Find, Untouched, SameBodiesBelow;
    var k := DotPos(name).value;
    forall q | Diverges(q, name) ensures SameLookup(g, g', o, q) {
      if DotPos(q).None? {
        DotGetPlain(g, o, q);
        DotGetPlain(g', o, q);
      } else {
        var j := DotPos(q).value;
        DotGetStep(g, o, q);
        DotGetStep(g', o, q);
        var u := Lookup(g[o].body.entries, q[..j]);
        NothingIsMissing(g, q[j + 1..]);
        NothingIsMissing(g', q[j + 1..]);
        if q[..j] == name[..k] {
          assert Diverges(q[j + 1..], name[k + 1..]) && SameLookup(g, g', t, q[j + 1..]);
        } else if u.Some? {
          SiblingUntouched(g, g', o, w, name[..k], t, q[..j], u.value);
          StepKept(g, g', u.value, q[j + 1..]);
        }
      }
    }
  }

  /** What is below another child of `o` is outside `t`, and `w` is not there either. */
  lemma SiblingUntouched(g: Cells, g': Cells, o: Ref, w: Ref, name: bytes, t: Ref, f: bytes, u: Ref)
    requires IsForest(g) && IsObject(g, o) && (w == t || !Below(g, w, o))
    requires GetValue(g, Some(o), name) == Some(t) && GetValue(g, Some(o), f) == Some(u) && name != f
    requires Untouched(g, g', t, w)
    ensures u in g && SameBodiesBelow(g, g', u)
  {
    hide IsForest, Kids, Lookup, Below, Untouched;
    ChildOf(g, o, name, t);
    ChildOf(g, o, f, u);
    DifferentNames(g, o, name, t, f, u);
    BelowSelf(g, t);
    forall x | x in g && Below(g, x, u) ensures x in g' && g'[x].body == g[x].body {
      SiblingsAreApart(g, o, u, t, x);
      TouchedNot(g, g', t, w, x);
    }
  }

  // ---------- Set below a name that does not exist yet ----------

  /** The chain of ancestors of a value that the inner set could not reach. */
  lemma {:induction false} AncestorsKept(g: Cells, g': Cells, n: Ref, v: Ref, x: Ref, y: Ref, m: nat)
    requires IsForest(g) && Untouched(g, g', n, v) && x in g && !Below(g, x, n) && !Below(g, x, v)
    requires Up(g', x, m) == Some(y)
    ensures Up(g, x, m) == Some(y)
    decreases m
  {
    if m > 0 {
      BelowSelf(g, x);
      TouchedNot(g, g', n, v, x);
      var p := g[x].parent.value;
      if Below(g, p, n) {
        BelowParent(g, x, n);
      }
      if Below(g, p, v) {
        BelowParent(g, x, v);
      }
      assert Held(g, x);
      AncestorsKept(g, g', n, v, p, y, m - 1);
    }
  }

  lemma NotUnderNew(g: Cells, g1: Cells, n: Ref, x: Ref)
    requires IsForest(g) && n !in g && g1 == g[n := Cell(None, ObjectOf([]))] && x in g
    ensures !Below(g1, x, n)
    ensures forall y | y in g :: Below(g1, x, y) <==> Below(g, x, y)
  {
    if Below(g1, x, n) {
      var m: nat :| Up(g1, x, m) == Some(n);
      UpIgnoresFresh(g, g1, n, x, m);
      UpStaysInside(g, x, m);
    }
    forall y | y in g ensures Below(g1, x, y) <==> Below(g, x, y) {
      if Below(g1, x, y) {
        var m: nat :| Up(g1, x, m) == Some(y);
        UpIgnoresFresh(g, g1, n, x, m);
        assert Up(g, x, m) == Some(y);
      }
      if Below(g, x, y) {
        var m: nat :| Up(g, x, m) == Some(y);
        UpIgnoresFresh(g, g1, n, x, m);
        assert Up(g1, x, m) == Some(y);
      }
    }
  }

  lemma {:induction false} UpIgnoresFresh(g: Cells, g1: Cells, n: Ref, x: Ref, m: nat)
    requires ParentsHold(g) && n !in g && g1 == g[n := Cell(None, ObjectOf([]))] && x in g
    ensures Up(g1, x, m) == Up(g, x, m)
    decreases m
  {
    if m > 0 && g[x].parent.Some? {
      assert Held(g, x);
      UpIgnoresFresh(g, g1, n, g[x].parent.value, m - 1);
    }
  }

  lemma {:induction false} UpStaysInside(g: Cells, x: Ref, m: nat)
    requires ParentsHold(g) && x in g
    ensures Up(g, x, m).Some? ==> Up(g, x, m).value in g
    decreases m
  {
    if m > 0 && g[x].parent.Some? {
      assert Held(g, x);
      UpStaysInside(g, g[x].parent.value, m - 1);
    }
  }

  /** `o` is not below the new object, however `v` was hung into it. */
  lemma OutsideNew(g: Cells, g1: Cells, g2: Cells, n: Ref, v: Ref, o: Ref)
    requires IsForest(g) && n !in g && g1 == g[n := Cell(None, ObjectOf([]))] && IsForest(g1)
    requires Untouched(g1, g2, n, v) && o in g && v in g && !Below(g, o, v)
    ensures !Below(g2, o, n) && o in g2 && g2[o] == g[o] && o != v && o != n
  {
    NotUnderNew(g, g1, n, o);
    BelowSelf(g, o);
    TouchedNot(g1, g2, n, v, o);
    if Below(g2, o, n) {
      var m: nat :| Up(g2, o, m) == Some(n);
      AncestorsKept(g1, g2, n, v, o, n, m);
      assert Below(g1, o, n);
    }
  }

  /** Hanging the new object under `o` completes the set. */
  lemma NewSetEffect(g: Cells, g1: Cells, g2: Cells, o: Ref, name: bytes, v: Ref, n: Ref)
    requires IsForest(g) && IsObject(g, o) && v in g && g[v].parent.None? && !Below(g, o, v)
    requires n !in g && g1 == g[n := Cell(None, ObjectOf([]))] && IsForest(g1) && IsForest(g2)
    requires DotPos(name).Some? && GetValue(g, Some(o), name[..DotPos(name).value]) == None
    requires SetEffect(g1, g2, n, name[DotPos(name).value + 1..], v)
    requires !Below(g2, o, n) && o in g2 && g2[o] == g[o] && o != v && o != n
    ensures var f := name[..DotPos(name).value];
            SetEffect(g, Link(g2, o, n, ObjectOf(g[o].body.entries + [Entry(f, n)])), o, name, v)
  {
    hide IsForest, Below, DotGet, Lookup, Untouched, OthersKept, Diverges, SameBodiesBelow;
    var k := DotPos(name).value;
    var f, es := name[..k], g[o].body.entries;
    var g3 := Link(g2, o, n, ObjectOf(es + [Entry(f, n)]));
    LookupNoneMeansNew(es, f);
    LookupAfterAppend(es, f, n, f);
    LinkedFrame(g2, o, n, ObjectOf(es + [Entry(f, n)]));
    DotGetStep(g3, o, name);
    DotGetFrame(g2, g3, n, name[k + 1..]);
    NewUntouched(g, g1, g2, g3, o, v, n);
    NewOthersKept(g, g1, g2, o, name, v, n);
  }

  lemma LookupNoneMeansNew(es: seq<Entry<Ref>>, f: bytes)
    requires Lookup(es, f) == None
    ensures Find(es, f) == |es|
  {
  }

  lemma LinkedFrame(g2: Cells, o: Ref, n: Ref, b: Body)
    requires o in g2 && n in g2 && o != n && !Below(g2, o, n)
    ensures SameBodiesBelow(g2, Link(g2, o, n, b), n)
  {
  }

  lemma NewUntouched(g: Cells, g1: Cells, g2: Cells, g3: Cells, o: Ref, v: Ref, n: Ref)
    requires IsForest(g) && n !in g && g1 == g[n := Cell(None, ObjectOf([]))] && o in g
    requires Untouched(g1, g2, n, v) && o in g2 && n in g2
    requires forall x | x in g2 && x != o && x != n :: x in g3 && g3[x] == g2[x]
    ensures Untouched(g, g3, o, v)
  {
    hide IsForest, Below;
    forall x | x in g && !Below(g, x, o) && x != v ensures x in g3 && g3[x] == g[x] {
      NotUnderNew(g, g1, n, x);
      TouchedNot(g1, g2, n, v, x);
      BelowSelf(g, o);
    }
  }

  lemma NewOthersKept(g: Cells, g1: Cells, g2: Cells, o: Ref, name: bytes, v: Ref, n: Ref)
    requires IsForest(g) && IsObject(g, o) && v in g && g[v].parent.None? && !Below(g, o, v)
    requires n !in g && g1 == g[n := Cell(None, ObjectOf([]))] && IsForest(g1) && IsForest(g2)
    requires DotPos(name).Some? && GetValue(g, Some(o), name[..DotPos(name).value]) == None
    requires SetEffect(g1, g2, n, name[DotPos(name).value + 1..], v)
    requires !Below(g2, o, n) && o in g2 && g2[o] == g[o] && o != v && o != n
    ensures var f := name[..DotPos(name).value];
            OthersKept(g, Link(g2, o, n, ObjectOf(g[o].body.entries + [Entry(f, n)])), o, name)
  {
    hide IsForest, Below, DotGet, Lookup, Untouched, SameBodiesBelow;
    var k := DotPos(name).value;
    var f, es := name[..k], g[o].body.entries;
    var g3 := Link(g2, o, n, ObjectOf(es + [Entry(f, n)]));
    LookupNoneMeansNew(es, f);
    forall q | Diverges(q, name) ensures SameLookup(g, g3, o, q) {
      if DotPos(q).None? {
        DotGetPlain(g, o, q);
        DotGetPlain(g3, o, q);
        LookupAfterAppend(es, f, n, q);
      } else {
        var j := DotPos(q).value;
        DotGetStep(g, o, q);
        DotGetStep(g3, o, q);
        LookupAfterAppend(es, f, n, q[..j]);
        var u := Lookup(es, q[..j]);
        if q[..j] == f {
          LinkedFrame(g2, o, n, ObjectOf(es + [Entry(f, n)]));
          DotGetFrame(g2, g3, n, q[j + 1..]);
          EmptyHasNoPath(g1, n, q[j + 1..]);
          NothingIsMissing(g, q[j + 1..]);
          assert Diverges(q[j + 1..], name[k + 1..]) && SameLookup(g1, g2, n, q[j + 1..]);
        } else if u.Some? {
          OldChildUntouched(g, g1, g2, g3, o, v, n, q[..j], u.value);
          StepKept(g, g3, u.value, q[j + 1..]);
        } else {
          NothingIsMissing(g, q[j + 1..]);
          NothingIsMissing(g3, q[j + 1..]);
        }
      }
    }
  }

  lemma OldChildUntouched(g: Cells, g1: Cells, g2: Cells, g3: Cells, o: Ref, v: Ref, n: Ref, f: bytes, u: Ref)
    requires IsForest(g) && IsObject(g, o) && v in g && g[v].parent.None? && !Below(g, o, v)
    requires n !in g && g1 == g[n := Cell(None, ObjectOf([]))] && Untouched(g1, g2, n, v)
    requires forall x | x in g2 && x != o && x != n :: x in g3 && g3[x] == g2[x]
    requires GetValue(g, Some(o), f) == Some(u)
    ensures u in g && SameBodiesBelow(g, g3, u)
  {
    hide IsForest, Below, Kids, Lookup, Untouched;
    ChildOf(g, o, f, u);
    RootIsElsewhere(g, o, v);
    forall x | x in g && Below(g, x, u) ensures x in g3 && g3[x].body == g[x].body {
      NotUnderNew(g, g1, n, x);
      TouchedNot(g1, g2, n, v, x);
    }
  }

  // ---------- The operations ----------

  method StrChr(name: bytes) returns (r: Option<nat>)
    ensures r == DotPos(name)
  {
    var i := 0;
    while i < |name|
      invariant i <= |name|
      invariant DotPos(name) == (match DotPos(name[i..]) case None => None case Some(k) => Some(i + k))
    {
      assert name[i..][1..] == name[i + 1..];
      if name[i] == DOT {
        return Some(i);
      }
      i := i + 1;
    }
    return None;
  }

  /** json_object_dotget_value */
  method DotGetValue(store: Store, o: Option<Ref>, name: bytes) returns (r: Option<Ref>)
    ensures r == DotGet(store.cells, o, name)
    ensures forall parts | SplitsInto(name, parts) :: r == Walk(store.cells, o, parts)
    decreases |name|
  {
    forall parts | SplitsInto(name, parts) ensures DotGet(store.cells, o, name) == Walk(store.cells, o, parts) {
      DotGetWalks(store.cells, o, name, parts);
    }
    hide SplitsInto, Walk;
    var dot := StrChr(name);
    if dot.None? {
      return GetValue(store.cells, o, name);
    }
    var inner := AsObject(store.cells, GetValue(store.cells, o, name[..dot.value]));
    r := DotGetValue(store, inner, name[dot.value + 1..]);
  }

  /** json_object_dotset_value */
  method DotSetValue(store: Store, o: Ref, name: bytes, v: Ref) returns (ok: bool)
    requires store.Valid() && IsObject(store.cells, o) && v in store.cells
    requires store.cells[v].parent.None? ==> !Below(store.cells, o, v)
    modifies store
    ensures store.Valid() && store.next >= old(store.next)
    ensures ok == (old(store.cells)[v].parent.None? && Settable(old(store.cells), o, name))
    ensures forall parts | SplitsInto(name, parts) ::
              ok == (old(store.cells)[v].parent.None? && MayCreate(old(store.cells), o, parts))
    ensures ok ==> SetEffect(old(store.cells), store.cells, o, name, v)
    ensures !ok ==> store.cells == old(store.cells)
    decreases |name|
  {
    hide IsForest, Below, Subtree, SetResult, SetEffect, Lookup, Find, DotGet, SplitsInto, MayCreate;
    ghost var g: Cells := store.cells;
    forall parts | SplitsInto(name, parts) ensures Settable(g, o, name) <==> MayCreate(g, o, parts) {
      SettableIff(g, o, name, parts);
    }
    var dot := StrChr(name);
    if dot.None? {
      if store.cells[v].parent.None? {
        PlainSetEffect(g, o, name, v);
      }
      ok := store.ObjectSet(o, name, v);
      return;
    }
    var f, rest := name[..dot.value], name[dot.value + 1..];
    var child := store.ObjectGet(o, f);
    if child.Some? {
      var t := child.value;
      if !IsObject(store.cells, t) {
        return false;
      }
      StepIsSafe(g, o, f, t, v);
      ok := DotSetValue(store, t, rest, v);
      if ok {
        StepSetEffect(g, store.cells, o, name, v, t);
      }
      return;
    }
    var n := store.NewObject();
    ghost var g1: Cells := store.cells;
    FreshIsSafe(g, g1, n, v, o);
    EmptyIsSettable(g1, n, rest);
    ok := DotSetValue(store, n, rest, v);
    if !ok {
      FreshSubtree(g, g1, n);
      store.Free(n, g1);
      return false;
    }
    ghost var g2: Cells := store.cells;
    FromEffect(g1, g2, n, rest, v);
    OutsideNew(g, g1, g2, n, v, o);
    LookupNoneMeansNew(g[o].body.entries, f);
    NewSetEffect(g, g1, g2, o, name, v, n);
    ok := store.ObjectAdd(o, f, n);
  }

  lemma FromEffect(g: Cells, g': Cells, o: Ref, name: bytes, v: Ref)
    requires SetEffect(g, g', o, name, v)
    ensures Untouched(g, g', o, v) && o in g && o in g' && g'[o].parent == g[o].parent
  {
  }

  lemma StepIsSafe(g: Cells, o: Ref, f: bytes, t: Ref, v: Ref)
    requires IsForest(g) && IsObject(g, o) && v in g && GetValue(g, Some(o), f) == Some(t)
    requires g[v].parent.None? ==> !Below(g, o, v)
    ensures g[v].parent.None? ==> !Below(g, t, v)
  {
    hide IsForest, Kids, Lookup;
    ChildOf(g, o, f, t);
    if g[v].parent.None? && Below(g, t, v) {
      BelowStep(g, t, v);
    }
  }

  lemma FreshIsSafe(g: Cells, g1: Cells, n: Ref, v: Ref, o: Ref)
    requires IsForest(g) && n !in g && g1 == g[n := Cell(None, ObjectOf([]))] && v in g && o in g
    ensures v in g1 && g1[v] == g[v] && !Below(g1, n, v) && g1[o] == g[o]
  {
  }

  lemma EmptyIsSettable(g: Cells, n: Ref, name: bytes)
    requires n in g && g[n].body == ObjectOf([])
    ensures Settable(g, n, name)
  {
  }

  /** Freeing the unused new object restores the store. */
  lemma FreshSubtree(g: Cells, g1: Cells, n: Ref)
    requires IsForest(g) && n !in g && g1 == g[n := Cell(None, ObjectOf([]))]
    ensures n in Subtree(g1, n) && g1 - Subtree(g1, n) == g
    ensures StillThere(g1, g1, Subtree(g1, n))
  {
    BelowSelf(g1, n);
    forall x | x in g ensures x !in Subtree(g1, n) {
      NotUnderNew(g, g1, n, x);
    }
    assert Subtree(g1, n) == {n};
  }

  // ---------- Remove ----------

  /** After removing `name` from `o`: the path leads nowhere, every path that is neither a prefix nor
      an extension keeps its lookup, and nothing outside `o` has changed. */
  ghost predicate RemoveEffect(g: Cells, g': Cells, o: Ref, name: bytes) {
    && DotGet(g', Some(o), name) == None
    && OthersKept(g, g', o, name)
    && Untouched(g, g', o, o)
    && IsObject(g, o) && IsObject(g', o) && g'[o].parent == g[o].parent
  }

  lemma RemoveResultFacts(g: Cells, o: Ref, name: bytes)
    requires IsForest(g) && IsObject(g, o) && Find(g[o].body.entries, name) < |g[o].body.entries|
    ensures var g' := RemoveResult(g, o, name);
            && IsObject(g', o) && g'[o].parent == g[o].parent
            && g'[o].body.entries == RemoveEntry(g[o].body.entries, name).value
            && Untouched(g, g', o, o) && Distinct(g[o].body.entries)
  {
    var es := g[o].body.entries;
    var c := es[Find(es, name)].value;
    ChildOf(g, o, name, c);
    assert GoodBody(g[o].body);
    assert forall x | x in Subtree(g, c) :: Below(g, x, o);
  }

  lemma RemoveKeepsSibling(g: Cells, o: Ref, name: bytes, f: bytes, t: Ref)
    requires IsForest(g) && IsObject(g, o) && Find(g[o].body.entries, name) < |g[o].body.entries|
    requires f != name && GetValue(g, Some(o), f) == Some(t)
    ensures t in g && SameBodiesBelow(g, RemoveResult(g, o, name), t)
  {
    hide IsForest, Below, Kids;
    var g', es := RemoveResult(g, o, name), g[o].body.entries;
    var c := es[Find(es, name)].value;
    ChildOf(g, o, f, t);
    ChildOf(g, o, name, c);
    DifferentNames(g, o, name, c, f, t);
    forall x | x in g && Below(g, x, t) ensures x in g' && g'[x].body == g[x].body {
      SiblingsAreApart(g, o, t, c, x);
    }
  }

  lemma PlainRemoveOther(g: Cells, o: Ref, name: bytes, q: bytes)
    requires IsForest(g) && IsObject(g, o) && Find(g[o].body.entries, name) < |g[o].body.entries|
    requires DotPos(name).None? && Diverges(q, name)
    ensures DotGet(RemoveResult(g, o, name), Some(o), q) == DotGet(g, Some(o), q)
  {
    hide IsForest, Below, Subtree, DotGet, RemoveResult, Lookup, Find, RemoveEntry, SameBodiesBelow, Untouched;
    hide Kids, Distinct;
    var g' := RemoveResult(g, o, name);
    RemoveResultFacts(g, o, name);
    if DotPos(q).None? {
      DotGetPlain(g, o, q);
      DotGetPlain(g', o, q);
      LookupAfterRemove(g[o].body.entries, name, q);
    } else {
      var k := DotPos(q).value;
      DotGetStep(g, o, q);
      DotGetStep(g', o, q);
      LookupAfterRemove(g[o].body.entries, name, q[..k]);
      var t := Lookup(g[o].body.entries, q[..k]);
      NothingIsMissing(g, q[k + 1..]);
      NothingIsMissing(g', q[k + 1..]);
      if t.Some? {
        RemoveKeepsSibling(g, o, name, q[..k], t.value);
        StepKept(g, g', t.value, q[k + 1..]);
      }
    }
  }

  lemma PlainRemoveEffect(g: Cells, o: Ref, name: bytes)
    requires IsForest(g) && IsObject(g, o) && DotPos(name).None?
    requires Find(g[o].body.entries, name) < |g[o].body.entries|
    ensures RemoveEffect(g, RemoveResult(g, o, name), o, name)
  {
    hide IsForest, Below, Subtree, DotGet, Diverges, RemoveResult, Lookup, Find, RemoveEntry, Untouched, Distinct;
    var g' := RemoveResult(g, o, name);
    RemoveResultFacts(g, o, name);
    LookupAfterRemove(g[o].body.entries, name, name);
    DotGetPlain(g', o, name);
    forall q | Diverges(q, name) ensures DotGet(g', Some(o), q) == DotGet(g, Some(o), q) {
      PlainRemoveOther(g, o, name, q);
    }
  }

  lemma StepRemoveEffect(g: Cells, g': Cells, o: Ref, name: bytes, t: Ref)
    requires IsForest(g) && IsObject(g, o)
    requires DotPos(name).Some? && GetValue(g, Some(o), name[..DotPos(name).value]) == Some(t) && IsObject(g, t)
    requires RemoveEffect(g, g', t, name[DotPos(name).value + 1..])
    ensures RemoveEffect(g, g', o, name)
  {
    hide IsForest, Below, Kids, DotGet, Lookup, Find, Untouched, OthersKept, Diverges;
    var k := DotPos(name).value;
    ChildOf(g, o, name[..k], t);
    BelowSelf(g, t);
    TouchedNot(g, g', t, t, o);
    DotGetStep(g', o, name);
    UntouchedWider(g, g', t, o);
    StepOthersKept(g, g', o, name, t, t);
  }

  lemma UntouchedWider(g: Cells, g': Cells, t: Ref, o: Ref)
    requires Untouched(g, g', t, t) && Below(g, t, o) && forall x | x in g && Below(g, x, t) :: Below(g, x, o)
    ensures Untouched(g, g', o, o)
  {
    hide Below;
  }

  /** json_object_dotremove */
  method DotRemove(store: Store, o: Ref, name: bytes) returns (ok: bool)
    requires store.Valid() && IsObject(store.cells, o)
    modifies store
    ensures store.Valid()
    ensures ok == DotGet(old(store.cells), Some(o), name).Some?
    ensures forall parts | SplitsInto(name, parts) :: ok == Walk(old(store.cells), Some(o), parts).Some?
    ensures ok ==> RemoveEffect(old(store.cells), store.cells, o, name)
    ensures !ok ==> store.cells == old(store.cells)
    decreases |name|
  {
    hide IsForest, Below, Subtree, RemoveResult, RemoveEffect, Find, DotGet, SplitsInto, Walk;
    ghost var g: Cells := store.cells;
    forall parts | SplitsInto(name, parts) ensures DotGet(g, Some(o), name) == Walk(g, Some(o), parts) {
      DotGetWalks(g, Some(o), name, parts);
    }
    var dot := StrChr(name);
    if dot.None? {
      DotGetPlain(g, o, name);
      PlainRemoves(g, o, name);
      ok := store.ObjectRemove(o, name);
      return;
    }
    var f, rest := name[..dot.value], name[dot.value + 1..];
    DotGetStep(g, o, name);
    NothingIsMissing(g, rest);
    var child := store.ObjectGet(o, f);
    if child.None? || !IsObject(store.cells, child.value) {
      return false;
    }
    ok := DotRemove(store, child.value, rest);
    if ok {
      StepRemoveEffect(g, store.cells, o, name, child.value);
    }
  }

  lemma PlainRemoves(g: Cells, o: Ref, name: bytes)
    requires IsForest(g) && IsObject(g, o) && DotPos(name).None?
    ensures Lookup(g[o].body.entries, name).Some? ==>
              Find(g[o].body.entries, name) < |g[o].body.entries|
              && RemoveEffect(g, RemoveResult(g, o, name), o, name)
  {
    if Lookup(g[o].body.entries, name).Some? {
      PlainRemoveEffect(g, o, name);
    }
  }
}
