/** The live JSON values of a program, addressed by reference, and the operations that move them
    between containers, free them, or refuse to. */
module ValueStore {
  import opened Bytes
  import opened ObjectTable
  import opened JsonValue
  import opened Forest

  // ---------- What a forest means for one value ----------

  /** A value with a parent sits in exactly one slot of that parent and in no other container;
      a root sits in none. */
  lemma ExactlyOneSlot(g: Cells, c: Ref)
    requires IsForest(g) && c in g
    ensures g[c].parent.None? ==> forall q | q in g :: c !in Kids(g[q].body)
    ensures g[c].parent.Some? ==>
              var p := g[c].parent.value;
              && p in g && (forall q | q in g && q != p :: c !in Kids(g[q].body))
              && InOneSlot(Kids(g[p].body), c)
  {
    hide Ranked, Kids;
    if g[c].parent.Some? {
      assert Held(g, c);
    }
  }

  ghost predicate InOneSlot(kids: seq<Ref>, c: Ref) {
    exists i :: 0 <= i < |kids| && kids[i] == c && forall j | 0 <= j < |kids| && j != i :: kids[j] != c
  }

  // ---------- Slots gained and lost ----------

  lemma DropLoses(items: seq<Ref>, ix: nat)
    requires NoDuplicates(items) && ix < |items|
    ensures Loses(ArrayOf(items), {items[ix]}, ArrayOf(items[..ix] + items[ix + 1..]))
  {
    var rest := items[..ix] + items[ix + 1..];
    forall x ensures x in rest <==> x in items && x != items[ix] {
      if x in items && x != items[ix] {
        var k :| 0 <= k < |items| && items[k] == x;
        assert rest[if k < ix then k else k - 1] == x;
      }
    }
  }

  lemma ReplaceGains(items: seq<Ref>, ix: nat, v: Ref)
    requires NoDuplicates(items) && ix < |items| && v !in items
    ensures Gains(ArrayOf(items[..ix] + items[ix + 1..]), v, ArrayOf(items[ix := v]))
  {
    var rest := items[..ix] + items[ix + 1..];
    var all := items[ix := v];
    forall x ensures x in all <==> x in rest || x == v {
      if x in rest {
        var k :| 0 <= k < |rest| && rest[k] == x;
        assert all[if k < ix then k else k + 1] == x;
      }
      if x in all && x != v {
        var k :| 0 <= k < |all| && all[k] == x;
        assert rest[if k < ix then k else k - 1] == x;
      }
      assert all[ix] == v;
    }
  }

  lemma ValuesHas(es: seq<Entry<Ref>>, k: nat)
    requires k < |es|
    ensures es[k].value in Values(es)
  {
    assert Values(es)[k] == es[k].value;
  }

  lemma AddGains(es: seq<Entry<Ref>>, name: bytes, v: Ref)
    requires GoodBody(ObjectOf(es)) && v !in Values(es) && Find(es, name) == |es|
    ensures Gains(ObjectOf(es), v, ObjectOf(es + [Entry(name, v)]))
  {
    DistinctAfterAppend(es, name, v);
    assert Values(es + [Entry(name, v)]) == Values(es) + [v];
  }

  /** What holds of the slots alone holds of the object, as long as its names stay distinct. */
  lemma ObjectSlots(es: seq<Entry<Ref>>, es': seq<Entry<Ref>>, s: set<Ref>, v: Ref)
    requires Distinct(es')
    ensures Loses(ArrayOf(Values(es)), s, ArrayOf(Values(es'))) ==> Loses(ObjectOf(es), s, ObjectOf(es'))
    ensures Gains(ArrayOf(Values(es)), v, ArrayOf(Values(es'))) ==> Gains(ObjectOf(es), v, ObjectOf(es'))
  {
    hide Distinct, NoDuplicates, Values;
  }

  lemma DistinctWithout(es: seq<Entry<Ref>>, k: nat)
    requires Distinct(es) && k < |es|
    ensures Distinct(es[..k] + es[k + 1..])
  {
  }

  lemma DistinctOverwritten(es: seq<Entry<Ref>>, k: nat, v: Ref)
    requires Distinct(es) && k < |es|
    ensures Distinct(es[k := Entry(es[k].name, v)])
  {
  }

  /** Overwriting a value: what is left without the old one, and what the new one adds to it. */
  lemma OverwriteSlots(es: seq<Entry<Ref>>, k: nat, v: Ref)
    requires GoodBody(ObjectOf(es)) && v !in Values(es) && k < |es|
    ensures Loses(ObjectOf(es), {es[k].value}, ObjectOf(es[..k] + es[k + 1..]))
    ensures Gains(ObjectOf(es[..k] + es[k + 1..]), v, ObjectOf(es[k := Entry(es[k].name, v)]))
  {
    hide Loses, Gains, NoDuplicates, Distinct;
    var items := Values(es);
    var without, overwritten := es[..k] + es[k + 1..], es[k := Entry(es[k].name, v)];
    DropLoses(items, k);
    ReplaceGains(items, k, v);
    assert Values(without) == items[..k] + items[k + 1..];
    assert Values(overwritten) == items[k := v];
    DistinctWithout(es, k);
    DistinctOverwritten(es, k, v);
    ObjectSlots(es, without, {es[k].value}, v);
    ObjectSlots(without, overwritten, {}, v);
  }

  lemma RemoveLoses(es: seq<Entry<Ref>>, name: bytes)
    requires GoodBody(ObjectOf(es)) && Find(es, name) < |es|
    ensures Loses(ObjectOf(es), {es[Find(es, name)].value}, ObjectOf(RemoveEntry(es, name).value))
  {
    hide Loses, Gains, NoDuplicates, Distinct, Find;
    var k, last := Find(es, name), |es| - 1;
    var items, es' := Values(es), RemoveEntry(es, name).value;
    DistinctAfterRemove(es, name);
    SwapLastLoses(items, k);
    assert Values(es') == items[k := items[last]][..last];
    ObjectSlots(es, es', {es[k].value}, 0);
  }

  lemma SwapLastLoses(items: seq<Ref>, k: nat)
    requires NoDuplicates(items) && k < |items|
    ensures Loses(ArrayOf(items), {items[k]}, ArrayOf(items[k := items[|items| - 1]][..|items| - 1]))
  {
    var last := |items| - 1;
    var rest := items[k := items[last]][..last];
    forall x ensures x in rest <==> x in items && x != items[k] {
      if x in items && x != items[k] {
        var j :| 0 <= j < |items| && items[j] == x;
        assert rest[if j == last then k else j] == x;
      }
    }
  }

  // ---------- What freeing visits ----------

  lemma SubtreeOfKids(g: Cells, v: Ref)
    requires IsForest(g) && v in g
    ensures Subtree(g, v) == {v} + Under(g, SetOf(Kids(g[v].body)))
  {
    var kids := SetOf(Kids(g[v].body));
    forall x ensures x in Subtree(g, v) <==> x in {v} + Under(g, kids) {
      if x in Subtree(g, v) && x != v {
        ReachesAKid(g, v, x);
      }
      if x in Under(g, kids) {
        var c :| c in kids && Below(g, x, c);
        BelowSelf(g, v);
        BelowParent(g, c, v);
        BelowTransitive(g, x, c, v);
      }
      if x == v {
        BelowSelf(g, v);
      }
    }
  }

  ghost function SetOf(s: seq<Ref>): set<Ref> {
    set x | x in s
  }

  lemma ReachesAKid(g: Cells, v: Ref, x: Ref)
    requires IsForest(g) && v in g && x in g && x != v && Below(g, x, v)
    ensures BelowAny(g, x, SetOf(Kids(g[v].body)))
  {
    var n: nat :| Up(g, x, n) == Some(v);
    ReachesAKidIn(g, v, x, n);
  }

  lemma {:induction false} ReachesAKidIn(g: Cells, v: Ref, x: Ref, n: nat)
    requires ParentsHold(g) && v in g && x in g && x != v && Up(g, x, n) == Some(v)
    ensures BelowAny(g, x, SetOf(Kids(g[v].body)))
    decreases n
  {
    var p := g[x].parent.value;
    assert Held(g, x);
    if p == v {
      assert x in SetOf(Kids(g[v].body));
      BelowSelf(g, x);
    } else {
      ReachesAKidIn(g, v, p, n - 1);
      var c :| c in SetOf(Kids(g[v].body)) && Below(g, p, c);
      BelowParent(g, x, c);
    }
  }

  lemma KidSubtree(g: Cells, v: Ref, c: Ref)
    requires IsForest(g) && v in g && c in Kids(g[v].body)
    ensures c in g && g[c].parent == Some(v)
    ensures Subtree(g, c) <= Subtree(g, v) && v in Subtree(g, v) && v !in Subtree(g, c)
  {
    BelowSelf(g, v);
    BelowParent(g, c, v);
    ParentIsNotBelow(g, v, c);
    forall x | x in Subtree(g, c) ensures x in Subtree(g, v) {
      BelowTransitive(g, x, c, v);
    }
  }

  lemma UnderOneMore(g: Cells, s: set<Ref>, c: Ref)
    ensures Under(g, s + {c}) == Under(g, s) + Subtree(g, c)
  {
    forall x | x in g ensures BelowAny(g, x, s + {c}) <==> BelowAny(g, x, s) || Below(g, x, c) {
    }
  }

  lemma UnderNone(g: Cells, s: set<Ref>)
    requires s == {}
    ensures Under(g, s) == {}
  {
  }

  lemma UnderOne(g: Cells, c: Ref)
    ensures Under(g, {c}) == Subtree(g, c)
  {
    assert c in {c};
  }

  lemma LaterKidUntouched(g: Cells, v: Ref, i: nat)
    requires IsForest(g) && v in g && i < |Kids(g[v].body)|
    ensures var kids := Kids(g[v].body);
            Subtree(g, kids[i]) !! Under(g, SetOf(kids[..i]))
  {
    var kids := Kids(g[v].body);
    assert NoDuplicates(kids) by {
      assert GoodBody(g[v].body);
    }
    forall x | x in Subtree(g, kids[i]) ensures x !in Under(g, SetOf(kids[..i])) {
      if x in Under(g, SetOf(kids[..i])) {
        var c :| c in SetOf(kids[..i]) && Below(g, x, c);
        KidSubtree(g, v, c);
        KidSubtree(g, v, kids[i]);
        SiblingsAreApart(g, v, kids[i], c, x);
      }
    }
  }

  ghost predicate StillThere(cells: Cells, g: Cells, s: set<Ref>) {
    forall x | x in s :: x in g && x in cells && cells[x] == g[x]
  }

  // ---------- The store ----------

  class Store {
    var cells: Cells
    var next: Ref

    ghost predicate Valid()
      reads this
    {
      IsForest(cells) && forall r | r in cells :: r < next
    }

    constructor ()
      ensures Valid() && cells == map[]
    {
      cells := map[];
      next := 0;
      new;
      assert Ranked(map[], map[]);
    }

    method NewObject() returns (r: Ref)
      requires Valid()
      modifies this
      ensures Valid() && r !in old(cells) && cells == old(cells)[r := Cell(None, ObjectOf([]))]
      ensures next >= old(next)
    {
      r := next;
      FreshKeepsForest(cells, r, ObjectOf([]));
      cells := cells[r := Cell(None, ObjectOf([]))];
      next := next + 1;
    }

    method NewArray() returns (r: Ref)
      requires Valid()
      modifies this
      ensures Valid() && r !in old(cells) && cells == old(cells)[r := Cell(None, ArrayOf([]))]
    {
      r := next;
      FreshKeepsForest(cells, r, ArrayOf([]));
      cells := cells[r := Cell(None, ArrayOf([]))];
      next := next + 1;
    }

    method NewScalar(v: Value) returns (r: Ref)
      requires Valid() && !v.Array? && !v.Object?
      modifies this
      ensures Valid() && r !in old(cells) && cells == old(cells)[r := Cell(None, Scalar(v))]
    {
      r := next;
      FreshKeepsForest(cells, r, Scalar(v));
      cells := cells[r := Cell(None, Scalar(v))];
      next := next + 1;
    }

    /** json_value_free: the value and everything below it, children first. `g` is the forest in
        which the freeing started. */
    method Free(v: Ref, ghost g: Cells)
      requires IsForest(g) && v in g && StillThere(cells, g, Subtree(g, v))
      modifies this`cells
      ensures cells == old(cells) - Subtree(g, v)
      decreases Subtree(g, v)
    {
      hide IsForest, Below, Subtree, Under;
      SubtreeHasRoot(g, v);
      var kids := Kids(cells[v].body);
      UnderNone(g, SetOf(kids[..0]));
      for i := 0 to |kids|
        invariant cells == old(cells) - Under(g, SetOf(kids[..i]))
      {
        KidSubtree(g, v, kids[i]);
        LaterKidUntouched(g, v, i);
        Free(kids[i], g);
        UnderOneMore(g, SetOf(kids[..i]), kids[i]);
        assert SetOf(kids[..i + 1]) == SetOf(kids[..i]) + {kids[i]};
      }
      assert kids[..|kids|] == kids;
      SubtreeOfKids(g, v);
      cells := cells - {v};
    }

    // ---------- Arrays ----------

    method ArrayAppend(a: Ref, v: Ref) returns (ok: bool)
      requires Valid() && a in cells && cells[a].body.ArrayOf? && v in cells
      requires cells[v].parent.None? ==> !Below(cells, a, v)
      modifies this`cells
      ensures Valid()
      ensures ok == old(cells)[v].parent.None?
      ensures cells == if ok then Link(old(cells), a, v, ArrayOf(old(cells)[a].body.items + [v])) else old(cells)
    {
      if cells[v].parent.Some? {
        return false;
      }
      var items := cells[a].body.items;
      RootIsInNoSlot(cells, a, v);
      LinkKeepsForest(cells, a, v, ArrayOf(items + [v]));
      cells := cells[a := Cell(cells[a].parent, ArrayOf(items + [v]))][v := Cell(Some(a), cells[v].body)];
      return true;
    }

    method ArrayReplace(a: Ref, ix: nat, v: Ref) returns (ok: bool)
      requires Valid() && a in cells && cells[a].body.ArrayOf? && v in cells
      requires cells[v].parent.None? ==> !Below(cells, a, v)
      modifies this`cells
      ensures Valid()
      ensures ok == (old(cells)[v].parent.None? && ix < |old(cells)[a].body.items|)
      ensures ok ==> var g := old(cells);
                     cells == (g - Subtree(g, g[a].body.items[ix]))
                              [a := Cell(g[a].parent, ArrayOf(g[a].body.items[ix := v]))][v := Cell(Some(a), g[v].body)]
      ensures !ok ==> cells == old(cells)
    {
      var items := cells[a].body.items;
      if cells[v].parent.Some? || ix >= |items| {
        return false;
      }
      ghost var g: Cells := cells;
      RootIsInNoSlot(g, a, v);
      DropLoses(items, ix);
      ReplaceGains(items, ix, v);
      SwapChild(g, a, items[ix], v, ArrayOf(items[..ix] + items[ix + 1..]), ArrayOf(items[ix := v]));
      SubtreeIsThere(g, items[ix]);
      Free(items[ix], g);
      cells := cells[a := Cell(cells[a].parent, ArrayOf(items[ix := v]))][v := Cell(Some(a), cells[v].body)];
      return true;
    }

    method ArrayRemove(a: Ref, ix: nat) returns (ok: bool)
      requires Valid() && a in cells && cells[a].body.ArrayOf?
      modifies this`cells
      ensures Valid()
      ensures ok == (ix < |old(cells)[a].body.items|)
      ensures ok ==> var g := old(cells);
                     var items := g[a].body.items;
                     cells == (g - Subtree(g, items[ix]))
                              [a := Cell(g[a].parent, ArrayOf(items[..ix] + items[ix + 1..]))]
      ensures !ok ==> cells == old(cells)
    {
      var items := cells[a].body.items;
      if ix >= |items| {
        return false;
      }
      ghost var g: Cells := cells;
      GoodInForest(g, a);
      DropLoses(items, ix);
      CutOne(g, a, items[ix], ArrayOf(items[..ix] + items[ix + 1..]));
      SubtreeIsThere(g, items[ix]);
      Free(items[ix], g);
      cells := cells[a := Cell(cells[a].parent, ArrayOf(items[..ix] + items[ix + 1..]))];
      return true;
    }

    // ---------- Objects ----------

    method ObjectGet(o: Ref, name: bytes) returns (r: Option<Ref>)
      requires o in cells && cells[o].body.ObjectOf?
      ensures r == Lookup(cells[o].body.entries, name)
    {
      return Lookup(cells[o].body.entries, name);
    }

    /** json_object_add, whose only caller that matters here has checked that the name is new. */
    method ObjectAdd(o: Ref, name: bytes, v: Ref) returns (ok: bool)
      requires Valid() && o in cells && cells[o].body.ObjectOf? && v in cells
      requires cells[v].parent.None? && !Below(cells, o, v)
      modifies this`cells
      ensures Valid()
      ensures ok == (Find(old(cells)[o].body.entries, name) == |old(cells)[o].body.entries|)
      ensures cells == if ok then Link(old(cells), o, v, ObjectOf(old(cells)[o].body.entries + [Entry(name, v)]))
                       else old(cells)
    {
      var es := cells[o].body.entries;
      if Find(es, name) < |es| {
        return false;
      }
      RootIsInNoSlot(cells, o, v);
      AddGains(es, name, v);
      LinkKeepsForest(cells, o, v, ObjectOf(es + [Entry(name, v)]));
      cells := cells[o := Cell(cells[o].parent, ObjectOf(es + [Entry(name, v)]))][v := Cell(Some(o), cells[v].body)];
      return true;
    }

    method ObjectSet(o: Ref, name: bytes, v: Ref) returns (ok: bool)
      requires Valid() && o in cells && cells[o].body.ObjectOf? && v in cells
      requires cells[v].parent.None? ==> !Below(cells, o, v)
      modifies this`cells
      ensures Valid()
      ensures ok == old(cells)[v].parent.None?
      ensures cells == if ok then SetResult(old(cells), o, name, v) else old(cells)
    {
      hide IsForest, Below, Find, Subtree;
      if cells[v].parent.Some? {
        return false;
      }
      var es := cells[o].body.entries;
      var k := Find(es, name);
      if k < |es| {
        ghost var g: Cells := cells;
        RootIsInNoSlot(g, o, v);
        OverwriteSlots(es, k, v);
        ValuesHas(es, k);
        SwapChild(g, o, es[k].value, v, ObjectOf(es[..k] + es[k + 1..]), ObjectOf(es[k := Entry(name, v)]));
        SubtreeIsThere(g, es[k].value);
        Free(es[k].value, g);
        var body := ObjectOf(es[k := Entry(name, v)]);
        cells := cells[o := Cell(cells[o].parent, body)][v := Cell(Some(o), cells[v].body)];
        return true;
      }
      ok := ObjectAdd(o, name, v);
    }

    method ObjectRemove(o: Ref, name: bytes) returns (ok: bool)
      requires Valid() && o in cells && cells[o].body.ObjectOf?
      modifies this`cells
      ensures Valid()
      ensures ok == Lookup(old(cells)[o].body.entries, name).Some?
      ensures cells == if ok then RemoveResult(old(cells), o, name) else old(cells)
    {
      hide IsForest, Below, Find, Subtree;
      var es := cells[o].body.entries;
      var k := Find(es, name);
      if k == |es| {
        return false;
      }
      ghost var g: Cells := cells;
      GoodInForest(g, o);
      RemoveLoses(es, name);
      ValuesHas(es, k);
      CutOne(g, o, es[k].value, ObjectOf(RemoveEntry(es, name).value));
      SubtreeIsThere(g, es[k].value);
      Free(es[k].value, g);
      cells := cells[o := Cell(cells[o].parent, ObjectOf(RemoveEntry(es, name).value))];
      return true;
    }

    /** json_array_clear and json_object_clear. */
    method Clear(p: Ref)
      requires Valid() && p in cells && !cells[p].body.Scalar?
      modifies this`cells
      ensures Valid()
      ensures var g := old(cells);
              cells == (g - Subtree(g, p))
                       [p := Cell(g[p].parent, if g[p].body.ArrayOf? then ArrayOf([]) else ObjectOf([]))]
    {
      hide IsForest, Below, Subtree, Under;
      ghost var g: Cells := cells;
      var kids := Kids(cells[p].body);
      var empty := if cells[p].body.ArrayOf? then ArrayOf([]) else ObjectOf([]);
      CutAll(g, p, empty);
      UnderNone(g, SetOf(kids[..0]));
      for i := 0 to |kids|
        invariant cells == g - Under(g, SetOf(kids[..i]))
      {
        KidSubtree(g, p, kids[i]);
        LaterKidUntouched(g, p, i);
        SubtreeIsThere(g, kids[i]);
        Free(kids[i], g);
        UnderOneMore(g, SetOf(kids[..i]), kids[i]);
        assert SetOf(kids[..i + 1]) == SetOf(kids[..i]) + {kids[i]};
      }
      assert kids[..|kids|] == kids;
      SubtreeOfKids(g, p);
      cells := cells[p := Cell(cells[p].parent, empty)];
      assert cells == (g - Subtree(g, p))[p := Cell(g[p].parent, empty)];
    }
  }

  // ---------- The results as functions of the old store ----------

  ghost function SetResult(g: Cells, o: Ref, name: bytes, v: Ref): Cells
    requires o in g && g[o].body.ObjectOf? && v in g
  {
    var es := g[o].body.entries;
    var k := Find(es, name);
    var kept := if k < |es| then g - Subtree(g, es[k].value) else g;
    kept[o := Cell(g[o].parent, ObjectOf(SetEntry(es, name, v)))][v := Cell(Some(o), g[v].body)]
  }

  ghost function RemoveResult(g: Cells, o: Ref, name: bytes): Cells
    requires o in g && g[o].body.ObjectOf? && Find(g[o].body.entries, name) < |g[o].body.entries|
  {
    var es := g[o].body.entries;
    (g - Subtree(g, es[Find(es, name)].value))[o := Cell(g[o].parent, ObjectOf(RemoveEntry(es, name).value))]
  }

  // ---------- Bridges between the operations and the forest lemmas ----------

  lemma SubtreeHasRoot(g: Cells, v: Ref)
    requires v in g
    ensures v in Subtree(g, v)
  {
    BelowSelf(g, v);
  }

  lemma SubtreeIsThere(g: Cells, v: Ref)
    ensures StillThere(g, g, Subtree(g, v))
  {
  }

  lemma GoodInForest(g: Cells, p: Ref)
    requires IsForest(g) && p in g
    ensures GoodBody(g[p].body)
  {
  }

  lemma RootIsInNoSlot(g: Cells, p: Ref, v: Ref)
    requires IsForest(g) && p in g && v in g && g[v].parent.None?
    ensures GoodBody(g[p].body) && v !in Kids(g[p].body)
  {
  }

  lemma CutOne(g: Cells, p: Ref, c: Ref, b: Body)
    requires IsForest(g) && p in g && c in Kids(g[p].body) && Loses(g[p].body, {c}, b)
    ensures c in g && p !in Subtree(g, c)
    ensures IsForest((g - Subtree(g, c))[p := Cell(g[p].parent, b)])
  {
    KidSubtree(g, p, c);
    UnderOne(g, c);
    CutKeepsForest(g, p, {c}, b);
  }

  /** Freeing a child and putting a root in its slot. */
  lemma SwapChild(g: Cells, p: Ref, c: Ref, v: Ref, without: Body, b: Body)
    requires IsForest(g) && p in g && c in Kids(g[p].body) && v in g && g[v].parent.None? && !Below(g, p, v)
    requires Loses(g[p].body, {c}, without) && Gains(without, v, b)
    ensures c in g && p !in Subtree(g, c) && v !in Subtree(g, c) && p != v
    ensures IsForest((g - Subtree(g, c))[p := Cell(g[p].parent, b)][v := Cell(Some(p), g[v].body)])
  {
    hide IsForest, Loses, Gains, Below, Subtree, Under, Cut;
    CutOne(g, p, c, without);
    RootOutside(g, p, c, v);
    var g' := (g - Subtree(g, c))[p := Cell(g[p].parent, without)];
    CutIs(g, p, c, without);
    BelowAfterCut(g, p, {c}, without, p, v);
    LinkKeepsForest(g', p, v, b);
    assert Link(g', p, v, b) == (g - Subtree(g, c))[p := Cell(g[p].parent, b)][v := Cell(Some(p), g[v].body)];
  }

  lemma CutIs(g: Cells, p: Ref, c: Ref, b: Body)
    requires p in g && p !in Subtree(g, c)
    ensures Cut(g, p, {c}, b) == (g - Subtree(g, c))[p := Cell(g[p].parent, b)]
    ensures p !in Under(g, {c})
  {
    UnderOne(g, c);
  }

  lemma RootOutside(g: Cells, p: Ref, c: Ref, v: Ref)
    requires IsForest(g) && p in g && c in Kids(g[p].body) && v in g && g[v].parent.None? && !Below(g, p, v)
    ensures v !in Subtree(g, c) && p != v
  {
    BelowSelf(g, p);
  }

  lemma CutAll(g: Cells, p: Ref, empty: Body)
    requires IsForest(g) && p in g && Kids(empty) == [] && GoodBody(empty)
    ensures p in Subtree(g, p)
    ensures p !in Under(g, SetOf(Kids(g[p].body)))
    ensures IsForest((g - Subtree(g, p))[p := Cell(g[p].parent, empty)])
  {
    var kids := SetOf(Kids(g[p].body));
    SubtreeHasRoot(g, p);
    SubtreeOfKids(g, p);
    CutSparesParent(g, p, kids);
    CutKeepsForest(g, p, kids, empty);
    assert (g - Subtree(g, p))[p := Cell(g[p].parent, empty)] == Cut(g, p, kids, empty);
  }
}
