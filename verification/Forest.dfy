/** Live values and their parent pointers: what it means that they form a forest, and the two
    changes every operation is made of, linking a root under a container and cutting children off. */
module Forest {
  import opened Bytes
  import opened ObjectTable
  import opened JsonValue

  type Ref = nat

  datatype Body =
    | Scalar(value: Value)
    | ArrayOf(items: seq<Ref>)
    | ObjectOf(entries: seq<Entry<Ref>>)

  datatype Cell = Cell(parent: Option<Ref>, body: Body)

  type Cells = map<Ref, Cell>

  function Values(es: seq<Entry<Ref>>): (vs: seq<Ref>)
    ensures |vs| == |es|
  {
    seq(|es|, i requires 0 <= i < |es| => es[i].value)
  }

  /** The slots of a container, in storage order. */
  function Kids(b: Body): seq<Ref> {
    match b
    case Scalar(_) => []
    case ArrayOf(items) => items
    case ObjectOf(es) => Values(es)
  }

  ghost predicate NoDuplicates(s: seq<Ref>) {
    forall i, j | 0 <= i < j < |s| :: s[i] != s[j]
  }

  /** No slot is used twice, names are distinct, and what is stored as a scalar is no container. */
  ghost predicate GoodBody(b: Body) {
    && NoDuplicates(Kids(b))
    && (b.ObjectOf? ==> Distinct(b.entries))
    && (b.Scalar? ==> !b.value.Array? && !b.value.Object?)
  }

  // ---------- The forest ----------

  /** Whatever sits in a slot is live and points back to the container. */
  ghost predicate SlotsPointBack(g: Cells) {
    forall p, c | p in g && c in Kids(g[p].body) :: c in g && g[c].parent == Some(p)
  }

  /** A value with a parent sits in a slot of that parent. */
  ghost predicate ParentsHold(g: Cells) {
    forall c {:trigger Held(g, c)} | c in g :: Held(g, c)
  }

  ghost predicate Held(g: Cells, c: Ref)
    requires c in g
  {
    g[c].parent.Some? ==> g[c].parent.value in g && c in Kids(g[g[c].parent.value].body)
  }

  ghost predicate BodiesGood(g: Cells) {
    forall p | p in g :: GoodBody(g[p].body)
  }

  ghost predicate Ranked(g: Cells, d: map<Ref, nat>) {
    d.Keys == g.Keys && forall c {:trigger Lower(g, d, c)} | c in g :: Lower(g, d, c)
  }

  /** A value stands lower than its parent. */
  ghost predicate Lower(g: Cells, d: map<Ref, nat>, c: Ref)
    requires c in g && d.Keys == g.Keys
  {
    g[c].parent.Some? ==> g[c].parent.value in g && d[g[c].parent.value] < d[c]
  }

  /** Every live value with a parent sits in exactly one slot of that parent, roots sit in none,
      and following parents never comes back. */
  ghost predicate IsForest(g: Cells) {
    && SlotsPointBack(g) && ParentsHold(g) && BodiesGood(g)
    && exists d: map<Ref, nat> :: Ranked(g, d)
  }

  // ---------- Being below ----------

  /** The ancestor `n` steps up. */
  function Up(g: Cells, x: Ref, n: nat): Option<Ref>
    decreases n
  {
    if n == 0 then Some(x)
    else if x in g && g[x].parent.Some? then Up(g, g[x].parent.value, n - 1)
    else None
  }

  ghost predicate Below(g: Cells, x: Ref, v: Ref) {
    exists n: nat :: Up(g, x, n) == Some(v)
  }

  ghost function Subtree(g: Cells, v: Ref): set<Ref> {
    set x | x in g && Below(g, x, v)
  }

  lemma BelowSelf(g: Cells, x: Ref)
    ensures Below(g, x, x)
  {
    assert Up(g, x, 0) == Some(x);
  }

  lemma BelowParent(g: Cells, x: Ref, v: Ref)
    requires x in g && g[x].parent.Some? && Below(g, g[x].parent.value, v)
    ensures Below(g, x, v)
  {
    var n: nat :| Up(g, g[x].parent.value, n) == Some(v);
    assert Up(g, x, n + 1) == Some(v);
  }

  lemma BelowStep(g: Cells, x: Ref, v: Ref)
    requires Below(g, x, v) && x != v
    ensures x in g && g[x].parent.Some? && Below(g, g[x].parent.value, v)
  {
    var n: nat :| Up(g, x, n) == Some(v);
    assert n > 0;
    assert Up(g, g[x].parent.value, n - 1) == Some(v);
  }

  lemma {:induction false} UpAdds(g: Cells, x: Ref, n: nat, m: nat)
    requires Up(g, x, n).Some?
    ensures Up(g, x, n + m) == Up(g, Up(g, x, n).value, m)
    decreases n
  {
    if n > 0 {
      UpAdds(g, g[x].parent.value, n - 1, m);
    }
  }

  lemma BelowTransitive(g: Cells, x: Ref, y: Ref, z: Ref)
    requires Below(g, x, y) && Below(g, y, z)
    ensures Below(g, x, z)
  {
    var n: nat :| Up(g, x, n) == Some(y);
    var m: nat :| Up(g, y, m) == Some(z);
    UpAdds(g, x, n, m);
    assert Up(g, x, n + m) == Some(z);
  }

  /** The ancestors of one value form a chain. */
  lemma BelowIsLinear(g: Cells, x: Ref, a: Ref, b: Ref)
    requires Below(g, x, a) && Below(g, x, b)
    ensures Below(g, a, b) || Below(g, b, a)
  {
    var n: nat :| Up(g, x, n) == Some(a);
    var m: nat :| Up(g, x, m) == Some(b);
    if n <= m {
      UpAdds(g, x, n, m - n);
      assert Up(g, a, m - n) == Some(b);
    } else {
      UpAdds(g, x, m, n - m);
      assert Up(g, b, n - m) == Some(a);
    }
  }

  lemma {:induction false} RankDecreases(g: Cells, d: map<Ref, nat>, x: Ref, n: nat)
    requires Ranked(g, d) && x in g && Up(g, x, n).Some?
    ensures Up(g, x, n).value in g && d[Up(g, x, n).value] + n <= d[x]
    decreases n
  {
    if n > 0 {
      assert Lower(g, d, x);
      RankDecreases(g, d, g[x].parent.value, n - 1);
    }
  }

  lemma BelowIsAntisymmetric(g: Cells, x: Ref, y: Ref)
    requires IsForest(g) && x in g
    ensures Below(g, x, y) && Below(g, y, x) ==> x == y
  {
    if Below(g, x, y) && Below(g, y, x) {
      var d: map<Ref, nat> :| Ranked(g, d);
      var n: nat :| Up(g, x, n) == Some(y);
      var m: nat :| Up(g, y, m) == Some(x);
      RankDecreases(g, d, x, n);
      RankDecreases(g, d, y, m);
    }
  }

  lemma ParentIsNotBelow(g: Cells, p: Ref, c: Ref)
    requires IsForest(g) && p in g && c in g && g[c].parent == Some(p)
    ensures !Below(g, p, c) && p != c
  {
    var d: map<Ref, nat> :| Ranked(g, d);
    assert Lower(g, d, c);
    if Below(g, p, c) {
      BelowSelf(g, p);
      BelowParent(g, c, p);
      BelowIsAntisymmetric(g, p, c);
    }
  }

  /** Two children of one container have nothing in common below them. */
  lemma SiblingsAreApart(g: Cells, p: Ref, a: Ref, b: Ref, x: Ref)
    requires IsForest(g) && p in g && a in g && b in g && a != b
    requires g[a].parent == Some(p) == g[b].parent
    requires Below(g, x, a)
    ensures !Below(g, x, b)
  {
    if Below(g, x, b) {
      BelowIsLinear(g, x, a, b);
      if Below(g, a, b) {
        BelowStep(g, a, b);
        ParentIsNotBelow(g, p, b);
      } else {
        BelowStep(g, b, a);
        ParentIsNotBelow(g, p, a);
      }
    }
  }

  // ---------- Linking ----------

  /** The root `c` becomes a child of `p`, whose slots become those of `b`. */
  function Link(g: Cells, p: Ref, c: Ref, b: Body): Cells
    requires p in g && c in g
  {
    g[p := Cell(g[p].parent, b)][c := Cell(Some(p), g[c].body)]
  }

  ghost predicate Gains(b0: Body, c: Ref, b: Body) {
    GoodBody(b) && forall x :: x in Kids(b) <==> x in Kids(b0) || x == c
  }

  ghost function ShiftedRank(g: Cells, d: map<Ref, nat>, c: Ref, shift: nat): map<Ref, nat> {
    map x | x in d :: if Below(g, x, c) then d[x] + shift else d[x]
  }

  lemma ShiftedIsRanked(g: Cells, d: map<Ref, nat>, p: Ref, c: Ref, b: Body)
    requires Ranked(g, d) && p in g && c in g && p != c && g[c].parent.None? && !Below(g, p, c)
    ensures Ranked(Link(g, p, c, b), ShiftedRank(g, d, c, d[p] + 1))
  {
    var g', d' := Link(g, p, c, b), ShiftedRank(g, d, c, d[p] + 1);
    forall x | x in g' ensures Lower(g', d', x) {
      if x == c {
        BelowSelf(g, c);
      } else if g'[x].parent.Some? {
        assert Lower(g, d, x);
        var q := g[x].parent.value;
        assert g'[x].parent == g[x].parent;
        if Below(g, q, c) {
          BelowParent(g, x, c);
        } else if Below(g, x, c) {
          BelowStep(g, x, c);
        }
      }
    }
  }

  lemma LinkSlots(g: Cells, p: Ref, c: Ref, b: Body)
    requires SlotsPointBack(g) && p in g && c in g && p != c && g[c].parent.None? && Gains(g[p].body, c, b)
    ensures SlotsPointBack(Link(g, p, c, b))
  {
    hide Below, Kids;
    var g' := Link(g, p, c, b);
    forall q, x | q in g' && x in Kids(g'[q].body) ensures x in g' && g'[x].parent == Some(q) {
      if q == p {
        assert x == c || x in Kids(g[p].body);
      } else {
        assert g'[q].body == g[q].body;
      }
    }
  }

  lemma LinkParents(g: Cells, p: Ref, c: Ref, b: Body)
    requires ParentsHold(g) && p in g && c in g && p != c && g[c].parent.None? && Gains(g[p].body, c, b)
    ensures ParentsHold(Link(g, p, c, b))
  {
    hide Below, Kids;
    var g' := Link(g, p, c, b);
    forall x | x in g' ensures Held(g', x) {
      if x == c {
        assert c in Kids(b);
      } else if g'[x].parent.Some? {
        assert Held(g, x);
        assert g'[x].parent == g[x].parent;
        var q := g[x].parent.value;
        assert x in Kids(g[q].body);
        assert q != p ==> g'[q].body == g[q].body;
      }
    }
  }

  lemma LinkBodies(g: Cells, p: Ref, c: Ref, b: Body)
    requires BodiesGood(g) && p in g && c in g && p != c && Gains(g[p].body, c, b)
    ensures BodiesGood(Link(g, p, c, b))
  {
    hide GoodBody;
    assert GoodBody(b) by {
    }
  }

  /** Linking a root under a container that is not inside it keeps the forest. */
  lemma LinkKeepsForest(g: Cells, p: Ref, c: Ref, b: Body)
    requires IsForest(g) && p in g && c in g && g[c].parent.None? && !Below(g, p, c)
    requires Gains(g[p].body, c, b)
    ensures p != c && IsForest(Link(g, p, c, b))
  {
    hide Below, Gains, SlotsPointBack, ParentsHold, BodiesGood, Link, ShiftedRank;
    BelowSelf(g, c);
    var d: map<Ref, nat> :| Ranked(g, d);
    ShiftedIsRanked(g, d, p, c, b);
    LinkSlots(g, p, c, b);
    LinkParents(g, p, c, b);
    LinkBodies(g, p, c, b);
  }

  /** What is below what after linking. */
  lemma {:induction false} UpAfterLink(g: Cells, p: Ref, c: Ref, b: Body, x: Ref, n: nat)
    requires p in g && c in g && p != c && g[c].parent.None?
    ensures Up(g, x, n).Some? ==> Up(Link(g, p, c, b), x, n) == Up(g, x, n)
    ensures var u := Up(Link(g, p, c, b), x, n);
            u.Some? && Up(g, x, n).None? ==> Below(g, x, c)
    decreases n
  {
    var g' := Link(g, p, c, b);
    if n > 0 {
      if x == c {
        BelowSelf(g, c);
      } else if x in g && g[x].parent.Some? {
        UpAfterLink(g, p, c, b, g[x].parent.value, n - 1);
        if Up(g', x, n).Some? && Up(g, x, n).None? {
          BelowParent(g, x, c);
        }
      }
    }
  }

  /** A value that was not below the linked root has the ancestors it had. */
  lemma BelowAfterLink(g: Cells, p: Ref, c: Ref, b: Body, x: Ref, y: Ref)
    requires p in g && c in g && p != c && g[c].parent.None?
    ensures Below(g, x, y) ==> Below(Link(g, p, c, b), x, y)
    ensures Below(Link(g, p, c, b), x, y) && !Below(g, x, c) ==> Below(g, x, y)
  {
    var g' := Link(g, p, c, b);
    if Below(g, x, y) {
      var n: nat :| Up(g, x, n) == Some(y);
      UpAfterLink(g, p, c, b, x, n);
      assert Up(g', x, n) == Some(y);
    }
    if Below(g', x, y) && !Below(g, x, c) {
      var n: nat :| Up(g', x, n) == Some(y);
      UpAfterLink(g, p, c, b, x, n);
      assert Up(g, x, n) == Some(y);
    }
  }

  // ---------- Cutting ----------

  ghost predicate BelowAny(g: Cells, x: Ref, s: set<Ref>) {
    exists c | c in s :: Below(g, x, c)
  }

  ghost function Under(g: Cells, s: set<Ref>): set<Ref> {
    set x | x in g && BelowAny(g, x, s)
  }

  /** The children in `s` are freed with everything below them; the slots of `p` become those of `b`. */
  ghost function Cut(g: Cells, p: Ref, s: set<Ref>, b: Body): Cells
    requires p in g
  {
    (g - Under(g, s))[p := Cell(g[p].parent, b)]
  }

  ghost predicate Loses(b0: Body, s: set<Ref>, b: Body) {
    GoodBody(b) && forall x :: x in Kids(b) <==> x in Kids(b0) && x !in s
  }

  lemma UnderIsClosed(g: Cells, s: set<Ref>, x: Ref)
    requires x in g && g[x].parent.Some?
    ensures g[x].parent.value in Under(g, s) ==> x in Under(g, s)
    ensures x in Under(g, s) && x !in s ==> BelowAny(g, g[x].parent.value, s)
  {
    if g[x].parent.value in Under(g, s) {
      var c :| c in s && Below(g, g[x].parent.value, c);
      BelowParent(g, x, c);
    }
    if x in Under(g, s) && x !in s {
      var c :| c in s && Below(g, x, c);
      BelowStep(g, x, c);
    }
  }

  lemma CutSparesParent(g: Cells, p: Ref, s: set<Ref>)
    requires IsForest(g) && p in g && forall c | c in s :: c in Kids(g[p].body)
    ensures p !in Under(g, s)
  {
    if p in Under(g, s) {
      var c :| c in s && Below(g, p, c);
      ParentIsNotBelow(g, p, c);
    }
  }

  lemma KidSurvives(g: Cells, p: Ref, s: set<Ref>, q: Ref, x: Ref)
    requires SlotsPointBack(g) && p in g && q in g && q !in Under(g, s)
    requires x in Kids(g[q].body) && (forall c | c in s :: c in Kids(g[p].body)) && !(x in s && q == p)
    ensures x in g && g[x].parent == Some(q) && x !in s && x !in Under(g, s)
  {
    UnderIsClosed(g, s, x);
  }

  lemma CutSlots(g: Cells, p: Ref, s: set<Ref>, b: Body)
    requires SlotsPointBack(g) && p in g && p !in Under(g, s)
    requires (forall c | c in s :: c in Kids(g[p].body)) && Loses(g[p].body, s, b)
    ensures SlotsPointBack(Cut(g, p, s, b))
  {
    hide Under, Kids, GoodBody, SlotsPointBack;
    var g' := Cut(g, p, s, b);
    forall q, x | q in g' && x in Kids(g'[q].body) ensures x in g' && g'[x].parent == Some(q) {
      KidSurvives(g, p, s, q, x);
    }
    PointBackIntro(g');
  }

  lemma PointBackIntro(g: Cells)
    requires forall p, c | p in g && c in Kids(g[p].body) :: c in g && g[c].parent == Some(p)
    ensures SlotsPointBack(g)
  {
  }

  lemma CutParents(g: Cells, p: Ref, s: set<Ref>, b: Body)
    requires IsForest(g) && p in g && (forall c | c in s :: c in Kids(g[p].body)) && Loses(g[p].body, s, b)
    ensures ParentsHold(Cut(g, p, s, b))
  {
    CutSparesParent(g, p, s);
    hide Under, Kids, BodiesGood, SlotsPointBack;
    var g' := Cut(g, p, s, b);
    forall x | x in g' && g'[x].parent.Some? ensures Held(g', x) {
      assert g'[x].parent == g[x].parent;
      assert Held(g, x);
      UnderIsClosed(g, s, x);
      if x in s {
        SelfIsUnder(g, s, x);
      }
    }
  }

  lemma CutRanked(g: Cells, p: Ref, s: set<Ref>, b: Body, d: map<Ref, nat>)
    requires Ranked(g, d) && p in g && p !in Under(g, s)
    ensures Ranked(Cut(g, p, s, b), map x | x in d && x !in Under(g, s) :: d[x])
  {
    var g' := Cut(g, p, s, b);
    var d' := map x | x in d && x !in Under(g, s) :: d[x];
    forall x | x in g' && g'[x].parent.Some? ensures Lower(g', d', x) {
      assert Lower(g, d, x);
      UnderIsClosed(g, s, x);
    }
  }

  lemma CutKeepsForest(g: Cells, p: Ref, s: set<Ref>, b: Body)
    requires IsForest(g) && p in g && (forall c | c in s :: c in Kids(g[p].body))
    requires Loses(g[p].body, s, b)
    ensures IsForest(Cut(g, p, s, b))
  {
    CutSparesParent(g, p, s);
    var d: map<Ref, nat> :| Ranked(g, d);
    CutRanked(g, p, s, b, d);
    CutSlots(g, p, s, b);
    CutParents(g, p, s, b);
    hide SlotsPointBack, ParentsHold, BodiesGood, Under;
  }

  lemma SelfIsUnder(g: Cells, s: set<Ref>, x: Ref)
    requires x in s && x in g
    ensures x in Under(g, s)
  {
    BelowSelf(g, x);
  }

  /** Survivors keep their ancestors. */
  lemma {:induction false} UpAfterCut(g: Cells, p: Ref, s: set<Ref>, b: Body, x: Ref, n: nat)
    requires p in g && x in g && x !in Under(g, s)
    ensures Up(Cut(g, p, s, b), x, n) == Up(g, x, n)
    decreases n
  {
    if n > 0 && g[x].parent.Some? {
      UnderIsClosed(g, s, x);
      var q := g[x].parent.value;
      if q in g {
        UpAfterCut(g, p, s, b, q, n - 1);
      } else {
        assert n > 1 ==> Up(g, q, n - 1).None?;
      }
    }
  }

  lemma BelowAfterCut(g: Cells, p: Ref, s: set<Ref>, b: Body, x: Ref, y: Ref)
    requires p in g && x in g && x !in Under(g, s)
    ensures Below(Cut(g, p, s, b), x, y) <==> Below(g, x, y)
  {
    var g' := Cut(g, p, s, b);
    if Below(g, x, y) {
      var n: nat :| Up(g, x, n) == Some(y);
      UpAfterCut(g, p, s, b, x, n);
      assert Up(g', x, n) == Some(y);
    }
    if Below(g', x, y) {
      var n: nat :| Up(g', x, n) == Some(y);
      UpAfterCut(g, p, s, b, x, n);
      assert Up(g, x, n) == Some(y);
    }
  }

  // ---------- Adding a fresh root ----------

  lemma FreshKeepsForest(g: Cells, r: Ref, b: Body)
    requires IsForest(g) && r !in g && Kids(b) == [] && GoodBody(b)
    ensures IsForest(g[r := Cell(None, b)])
  {
    var g' := g[r := Cell(None, b)];
    var d: map<Ref, nat> :| Ranked(g, d);
    forall x | x in g ensures Held(g', x) && Lower(g', d[r := 0], x) {
      assert Held(g, x) && Lower(g, d, x);
    }
    assert Ranked(g', d[r := 0]);
    assert SlotsPointBack(g') by {
      forall q, x | q in g' && x in Kids(g'[q].body) ensures x in g' && g'[x].parent == Some(q) {
        assert q != r;
      }
    }
  }
}
