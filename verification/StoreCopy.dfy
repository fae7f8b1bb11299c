/** What a live value means as a tree, and deep copy in the store: fresh cells with the same meaning. */
module StoreCopy {
  import opened Bytes
  import opened ObjectTable
  import opened JsonValue
  import opened Forest
  import opened ValueStore

  /** The tree that the live value `r` stands for. */
  ghost predicate Means(g: Cells, r: Ref, v: Value)
    decreases v
  {
    r in g &&
    match v
    case Array(items) => g[r].body.ArrayOf? && ItemsMean(g, g[r].body.items, items, |items|)
    case Object(members) => g[r].body.ObjectOf? && MembersMean(g, g[r].body.entries, members, |members|)
    case _ => g[r].body == Scalar(v)
  }

  /** The first `n` items, and there are no others. */
  ghost predicate ItemsMean(g: Cells, refs: seq<Ref>, items: seq<Value>, n: nat)
    decreases items
  {
    |refs| == n <= |items| && forall i | 0 <= i < n :: Means(g, refs[i], items[i])
  }

  ghost predicate MembersMean(g: Cells, es: seq<Entry<Ref>>, members: seq<Entry<Value>>, n: nat)
    decreases members
  {
    |es| == n <= |members|
    && forall i | 0 <= i < n :: es[i].name == members[i].name && Means(g, es[i].value, members[i].value)
  }

  /** Every cell but the root `c` keeps its contents. */
  ghost predicate KeptBut(g: Cells, g': Cells, c: Ref) {
    (c in g ==> g[c].parent.None?) && forall x | x in g && x != c :: x in g' && g'[x].body == g[x].body
  }

  lemma KidIsNoRoot(g: Cells, t: Ref, u: Ref)
    requires SlotsPointBack(g) && t in g && u in Kids(g[t].body)
    ensures u in g && g[u].parent == Some(t)
  {
  }

  /** A root occurs in no other value, so changing it changes no other value's meaning. */
  lemma {:induction false} MeaningKept(g: Cells, g': Cells, t: Ref, v: Value, c: Ref)
    requires SlotsPointBack(g) && KeptBut(g, g', c) && t != c && Means(g, t, v)
    ensures Means(g', t, v)
    decreases v
  {
    hide SlotsPointBack;
    match v
    case Array(items) =>
      var refs := g[t].body.items;
      forall i | 0 <= i < |items| ensures Means(g', refs[i], items[i]) {
        KidIsNoRoot(g, t, refs[i]);
        MeaningKept(g, g', refs[i], items[i], c);
      }
    case Object(members) =>
      var es := g[t].body.entries;
      forall i | 0 <= i < |members| ensures Means(g', es[i].value, members[i].value) {
        ValuesHas(es, i);
        KidIsNoRoot(g, t, es[i].value);
        MeaningKept(g, g', es[i].value, members[i].value, c);
      }
    case _ =>
  }

  /** A live value stands for one tree only. */
  lemma {:induction false} MeaningIsUnique(g: Cells, r: Ref, v: Value, w: Value)
    requires Means(g, r, v) && Means(g, r, w) && BodiesGood(g)
    ensures v == w
    decreases v
  {
    match v
    case Array(items) =>
      assert w.Array?;
      forall i | 0 <= i < |items| ensures items[i] == w.items[i] {
        MeaningIsUnique(g, g[r].body.items[i], items[i], w.items[i]);
      }
    case Object(members) =>
      assert w.Object?;
      forall i | 0 <= i < |members| ensures members[i] == w.members[i] {
        MeaningIsUnique(g, g[r].body.entries[i].value, members[i].value, w.members[i].value);
      }
    case _ =>
  }

  /** Every live value stands for a tree. */
  lemma {:induction false} EveryValueMeans(g: Cells, r: Ref) returns (v: Value)
    requires IsForest(g) && r in g
    ensures Means(g, r, v)
    decreases Subtree(g, r)
  {
    hide IsForest, Subtree;
    SubtreeHasRoot(g, r);
    GoodInForest(g, r);
    match g[r].body
    case Scalar(w) => v := w;
    case ArrayOf(refs) =>
      var items: seq<Value> := [];
      for i := 0 to |refs|
        invariant |items| == i && forall j | 0 <= j < i :: Means(g, refs[j], items[j])
      {
        KidSubtree(g, r, refs[i]);
        var x := EveryValueMeans(g, refs[i]);
        items := items + [x];
      }
      v := Array(items);
    case ObjectOf(es) =>
      var members: seq<Entry<Value>> := [];
      for i := 0 to |es|
        invariant |members| == i
        invariant forall j | 0 <= j < i :: es[j].name == members[j].name && Means(g, es[j].value, members[j].value)
      {
        ValuesHas(es, i);
        KidSubtree(g, r, es[i].value);
        var x := EveryValueMeans(g, es[i].value);
        members := members + [Entry(es[i].name, x)];
      }
      v := Object(members);
  }

  // ---------- Deep copy ----------

  /** Everything that was live is as it was. */
  ghost predicate Extends(g: Cells, g': Cells) {
    forall x | x in g :: x in g' && g'[x] == g[x]
  }

  /** What is live now and was not before is the value `c` with all that is below it. */
  ghost predicate NewBelow(g: Cells, g': Cells, c: Ref) {
    forall x | x in g' && x !in g :: Below(g', x, c)
  }

  /** `c` is a fresh root and everything else new is below it. */
  ghost predicate FreshCopy(g: Cells, g': Cells, c: Ref) {
    c !in g && c in g' && g'[c].parent.None? && Extends(g, g') && NewBelow(g, g', c)
  }

  lemma {:induction false} UpExtends(g: Cells, g': Cells, x: Ref, n: nat)
    requires Extends(g, g') && Up(g, x, n).Some?
    ensures Up(g', x, n) == Up(g, x, n)
    decreases n
  {
    if n > 0 {
      UpExtends(g, g', g[x].parent.value, n - 1);
    }
  }

  lemma BelowExtends(g: Cells, g': Cells, x: Ref, y: Ref)
    requires Extends(g, g') && Below(g, x, y)
    ensures Below(g', x, y)
  {
    var n: nat :| Up(g, x, n) == Some(y);
    UpExtends(g, g', x, n);
  }

  lemma EmptyCopy(g: Cells, g': Cells, c: Ref, b: Body)
    requires c !in g && g' == g[c := Cell(None, b)]
    ensures FreshCopy(g, g', c)
  {
    BelowSelf(g', c);
  }

  /** A fresh root does not stand below another fresh root. */
  lemma RootsApart(g: Cells, g': Cells, c: Ref, k: Ref)
    requires c in g && g[c].parent.None? && FreshCopy(g, g', k)
    ensures c in g' && g'[c] == g[c] && c != k && !Below(g', c, k)
  {
  }

  /** Linking the copy of a child under the copy of its container. */
  lemma CopyGrows(g: Cells, g1: Cells, g2: Cells, c: Ref, k: Ref, b: Body)
    requires FreshCopy(g, g1, c) && FreshCopy(g1, g2, k)
    requires c in g2 && k in g2 && c != k
    ensures FreshCopy(g, Link(g2, c, k, b), c)
    ensures KeptBut(g1, Link(g2, c, k, b), c) && KeptBut(g2, Link(g2, c, k, b), c)
  {
    hide Below;
    var g3 := Link(g2, c, k, b);
    forall x | x in g3 && x !in g ensures Below(g3, x, c) {
      if x in g1 {
        BelowExtends(g1, g2, x, c);
        BelowAfterLink(g2, c, k, b, x, c);
      } else {
        BelowAfterLink(g2, c, k, b, x, k);
        BelowSelf(g3, c);
        BelowParent(g3, k, c);
        BelowTransitive(g3, x, k, c);
      }
    }
  }

  /** Copies of the items so far keep their meaning while the next one is made and linked. */
  lemma ItemsStep(g1: Cells, g2: Cells, c: Ref, k: Ref, refs: seq<Ref>, items: seq<Value>, n: nat)
    requires SlotsPointBack(g1) && SlotsPointBack(g2)
    requires c in g1 && g1[c] == Cell(None, ArrayOf(refs)) && c in g2 && k in g2 && c != k
    requires KeptBut(g1, Link(g2, c, k, ArrayOf(refs + [k])), c) && KeptBut(g2, Link(g2, c, k, ArrayOf(refs + [k])), c)
    requires n < |items| && ItemsMean(g1, refs, items, n) && Means(g2, k, items[n])
    ensures ItemsMean(Link(g2, c, k, ArrayOf(refs + [k])), refs + [k], items, n + 1)
  {
    hide Means, KeptBut;
    var g3 := Link(g2, c, k, ArrayOf(refs + [k]));
    forall i | 0 <= i < n + 1 ensures Means(g3, (refs + [k])[i], items[i]) {
      if i < n {
        KidIsNoRoot(g1, c, refs[i]);
        MeaningKept(g1, g3, refs[i], items[i], c);
      } else {
        MeaningKept(g2, g3, k, items[n], c);
      }
    }
  }

  lemma MembersStep(g1: Cells, g2: Cells, c: Ref, k: Ref, es: seq<Entry<Ref>>, name: bytes,
                    members: seq<Entry<Value>>, n: nat)
    requires SlotsPointBack(g1) && SlotsPointBack(g2)
    requires c in g1 && g1[c] == Cell(None, ObjectOf(es)) && c in g2 && k in g2 && c != k
    requires var b := ObjectOf(es + [Entry(name, k)]);
             KeptBut(g1, Link(g2, c, k, b), c) && KeptBut(g2, Link(g2, c, k, b), c)
    requires n < |members| && MembersMean(g1, es, members, n)
    requires name == members[n].name && Means(g2, k, members[n].value)
    ensures MembersMean(Link(g2, c, k, ObjectOf(es + [Entry(name, k)])), es + [Entry(name, k)], members, n + 1)
  {
    hide Means, KeptBut;
    var es3 := es + [Entry(name, k)];
    var g3 := Link(g2, c, k, ObjectOf(es3));
    forall i | 0 <= i < n + 1 ensures es3[i].name == members[i].name && Means(g3, es3[i].value, members[i].value) {
      if i < n {
        ValuesHas(es, i);
        KidIsNoRoot(g1, c, es[i].value);
        MeaningKept(g1, g3, es[i].value, members[i].value, c);
      } else {
        MeaningKept(g2, g3, k, members[n].value, c);
      }
    }
  }

  lemma PointsBack(g: Cells)
    requires IsForest(g)
    ensures SlotsPointBack(g)
  {
  }

  /** The old value's parts still mean what they meant while the copy is under way. */
  lemma OldMeans(g: Cells, g': Cells, t: Ref, v: Value, c: Ref)
    requires IsForest(g) && FreshCopy(g, g', c) && Means(g, t, v)
    ensures Means(g', t, v)
  {
    MeaningKept(g, g', t, v, c);
  }

  /** Deep copy: a fresh root with the same meaning, everything that was live untouched, and nothing
      new but the copy. */
  method DeepCopy(store: Store, r: Ref, ghost v: Value) returns (c: Ref)
    requires store.Valid() && Means(store.cells, r, v)
    modifies store
    ensures store.Valid() && FreshCopy(old(store.cells), store.cells, c)
    ensures Means(store.cells, c, v)
    decreases v, 1
  {
    match store.cells[r].body
    case Scalar(w) =>
      c := CopyScalar(store, w);
    case ArrayOf(_) =>
      c := CopyArray(store, r, v);
    case ObjectOf(_) =>
      c := CopyObject(store, r, v);
  }

  method CopyScalar(store: Store, w: Value) returns (c: Ref)
    requires store.Valid() && !w.Array? && !w.Object?
    modifies store
    ensures store.Valid() && FreshCopy(old(store.cells), store.cells, c)
    ensures Means(store.cells, c, w)
  {
    hide IsForest, FreshCopy;
    c := store.NewScalar(w);
    EmptyCopy(old(store.cells), store.cells, c, Scalar(w));
  }

  method CopyArray(store: Store, r: Ref, ghost v: Value) returns (c: Ref)
    requires store.Valid() && Means(store.cells, r, v) && store.cells[r].body.ArrayOf?
    modifies store
    ensures store.Valid() && FreshCopy(old(store.cells), store.cells, c)
    ensures Means(store.cells, c, v)
    decreases v, 0
  {
    hide IsForest, SlotsPointBack, FreshCopy, KeptBut, Extends, NewBelow, Below;
    ghost var g := store.cells;
    var refs := store.cells[r].body.items;
    c := store.NewArray();
    EmptyCopy(g, store.cells, c, ArrayOf([]));
    for i := 0 to |refs|
      invariant store.Valid() && FreshCopy(g, store.cells, c)
      invariant c in store.cells && store.cells[c].parent.None? && store.cells[c].body.ArrayOf?
      invariant ItemsMean(store.cells, store.cells[c].body.items, v.items, i)
    {
      ghost var g1 := store.cells;
      OldMeans(g, g1, refs[i], v.items[i], c);
      var k := DeepCopy(store, refs[i], v.items[i]);
      ghost var g2 := store.cells;
      RootsApart(g1, g2, c, k);
      var ok := store.ArrayAppend(c, k);
      CopyGrows(g, g1, g2, c, k, store.cells[c].body);
      PointsBack(g1);
      PointsBack(g2);
      ItemsStep(g1, g2, c, k, g1[c].body.items, v.items, i);
    }
  }

  method CopyObject(store: Store, r: Ref, ghost v: Value) returns (c: Ref)
    requires store.Valid() && Means(store.cells, r, v) && store.cells[r].body.ObjectOf?
    modifies store
    ensures store.Valid() && FreshCopy(old(store.cells), store.cells, c)
    ensures Means(store.cells, c, v)
    decreases v, 0
  {
    hide IsForest, SlotsPointBack, FreshCopy, KeptBut, Extends, NewBelow, Below;
    ghost var g := store.cells;
    var es := store.cells[r].body.entries;
    c := store.NewObject();
    EmptyCopy(g, store.cells, c, ObjectOf([]));
    for i := 0 to |es|
      invariant store.Valid() && FreshCopy(g, store.cells, c)
      invariant c in store.cells && store.cells[c].parent.None? && store.cells[c].body.ObjectOf?
      invariant MembersMean(store.cells, store.cells[c].body.entries, v.members, i)
    {
      ghost var g1 := store.cells;
      StillTheObject(g, g1, r, c, i);
      var key := es[i].name;
      var t := store.ObjectGet(r, key);
      OldMeans(g, g1, es[i].value, v.members[i].value, c);
      var k := DeepCopy(store, t.value, v.members[i].value);
      ghost var g2 := store.cells;
      RootsApart(g1, g2, c, k);
      NameIsNew(g, r, v.members, g1[c].body.entries, i);
      var ok := store.ObjectAdd(c, key, k);
      CopyGrows(g, g1, g2, c, k, store.cells[c].body);
      PointsBack(g1);
      PointsBack(g2);
      MembersStep(g1, g2, c, k, g1[c].body.entries, key, v.members, i);
    }
  }

  lemma StillTheObject(g: Cells, g1: Cells, r: Ref, c: Ref, i: nat)
    requires IsForest(g) && r in g && g[r].body.ObjectOf? && FreshCopy(g, g1, c) && i < |g[r].body.entries|
    ensures r in g1 && g1[r] == g[r]
    ensures Lookup(g[r].body.entries, g[r].body.entries[i].name) == Some(g[r].body.entries[i].value)
  {
    GoodInForest(g, r);
    LookupBy(g[r].body.entries, i);
  }

  /** The names copied so far are the first ones of an object with distinct names. */
  lemma NameIsNew(g: Cells, r: Ref, members: seq<Entry<Value>>, es: seq<Entry<Ref>>, i: nat)
    requires IsForest(g) && r in g && g[r].body.ObjectOf? && i < |members|
    requires |g[r].body.entries| == |members| && |es| == i
    requires forall j | 0 <= j < |members| :: g[r].body.entries[j].name == members[j].name
    requires forall j | 0 <= j < i :: es[j].name == members[j].name
    ensures Find(es, g[r].body.entries[i].name) == |es|
  {
    GoodInForest(g, r);
    FindEquals(es, g[r].body.entries[i].name, i);
  }
}
