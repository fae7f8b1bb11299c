/** Comparing values. */
module Equality {
  import opened Bytes
  import opened ObjectTable
  import opened JsonValue

  /** Equal as JSON: arrays item by item, objects as finite maps whatever the order of members. */
  ghost predicate Same(a: Value, b: Value)
    decreases a
  {
    match a
    case Null => b.Null?
    case Bool(x) => b == Bool(x)
    case Number(n) => b == Number(n)
    case Str(s) => b == Str(s)
    case Array(items) =>
      b.Array? && |b.items| == |items| && forall i | 0 <= i < |items| :: Same(items[i], b.items[i])
    case Object(members) =>
      && b.Object? && Names(members) == Names(b.members)
      && forall i, j | 0 <= i < |members| && 0 <= j < |b.members| && members[i].name == b.members[j].name ::
           Same(members[i].value, b.members[j].value)
  }

  // ---------- An equivalence that ignores the order of members ----------

  lemma {:induction false} SameReflexive(a: Value)
    requires WellFormed(a)
    ensures Same(a, a)
  {
    match a
    case Array(items) =>
      forall i | 0 <= i < |items| ensures Same(items[i], items[i]) {
        SameReflexive(items[i]);
      }
    case Object(members) =>
      forall i, j | 0 <= i < |members| && 0 <= j < |members| && members[i].name == members[j].name
        ensures Same(members[i].value, members[j].value)
      {
        assert i == j;
        SameReflexive(members[i].value);
      }
    case _ =>
  }

  lemma {:induction false} SameSymmetric(a: Value, b: Value)
    requires Same(a, b)
    ensures Same(b, a)
    decreases a
  {
    match a
    case Array(items) =>
      forall i | 0 <= i < |items| ensures Same(b.items[i], items[i]) {
        SameSymmetric(items[i], b.items[i]);
      }
    case Object(members) =>
      forall i, j | 0 <= i < |members| && 0 <= j < |b.members| && members[i].name == b.members[j].name
        ensures Same(b.members[j].value, members[i].value)
      {
        SameSymmetric(members[i].value, b.members[j].value);
      }
    case _ =>
  }

  lemma {:induction false} SameTransitive(a: Value, b: Value, c: Value)
    requires Same(a, b) && Same(b, c)
    ensures Same(a, c)
    decreases a
  {
    match a
    case Array(items) =>
      forall i | 0 <= i < |items| ensures Same(items[i], c.items[i]) {
        SameTransitive(items[i], b.items[i], c.items[i]);
      }
    case Object(members) =>
      forall i, k | 0 <= i < |members| && 0 <= k < |c.members| && members[i].name == c.members[k].name
        ensures Same(members[i].value, c.members[k].value)
      {
        var j := NamedIn(members, i, b.members);
        SameTransitive(members[i].value, b.members[j].value, c.members[k].value);
      }
    case _ =>
  }

  lemma NamedIn<V>(xs: seq<Entry<V>>, i: nat, ys: seq<Entry<V>>) returns (j: nat)
    requires i < |xs| && Names(xs) <= Names(ys)
    ensures j < |ys| && ys[j].name == xs[i].name
  {
    assert xs[i] in xs;
    assert xs[i].name in Names(xs);
    NameIffFound(ys, xs[i].name);
    j := Find(ys, xs[i].name);
  }

  /** Objects that stand for the same map are the same value, in whatever order they store it. */
  lemma OrderIsIgnored(x: seq<Entry<Value>>, y: seq<Entry<Value>>)
    requires WellFormed(Object(x)) && WellFormed(Object(y)) && ToMap(x) == ToMap(y)
    ensures Same(Object(x), Object(y))
  {
    forall n ensures n in Names(x) <==> n in Names(y) {
      LookupInMap(x, n);
      LookupInMap(y, n);
      NameIffFound(x, n);
      NameIffFound(y, n);
    }
    forall i, j | 0 <= i < |x| && 0 <= j < |y| && x[i].name == y[j].name
      ensures Same(x[i].value, y[j].value)
    {
      LookupBy(x, i);
      LookupBy(y, j);
      LookupInMap(x, x[i].name);
      LookupInMap(y, y[j].name);
      assert x[i].value == y[j].value;
      SameReflexive(x[i].value);
    }
  }

  // ---------- What the relation decides ----------

  /** Values without the order of their members: an object is a finite map from names. */
  datatype Tree =
    | NullTree
    | BoolTree(b: bool)
    | NumberTree(n: int)
    | StringTree(s: bytes)
    | ArrayTree(items: seq<Tree>)
    | ObjectTree(members: map<bytes, Tree>)

  function TreeOf(v: Value): Tree
    decreases v
  {
    match v
    case Null => NullTree
    case Bool(b) => BoolTree(b)
    case Number(n) => NumberTree(n)
    case Str(s) => StringTree(s)
    case Array(items) => ArrayTree(TreesOf(items))
    case Object(members) => ObjectTree(TreeMap(members))
  }

  function TreesOf(items: seq<Value>): seq<Tree>
    decreases items
  {
    if items == [] then [] else [TreeOf(items[0])] + TreesOf(items[1..])
  }

  function TreeMap(members: seq<Entry<Value>>): map<bytes, Tree>
    decreases members
  {
    if members == [] then map[] else TreeMap(members[1..])[members[0].name := TreeOf(members[0].value)]
  }

  lemma {:induction false} TreesAt(items: seq<Value>)
    ensures |TreesOf(items)| == |items|
    ensures forall i | 0 <= i < |items| :: TreesOf(items)[i] == TreeOf(items[i])
    decreases |items|
  {
    hide TreeOf;
    if items != [] {
      TreesAt(items[1..]);
    }
  }

  lemma {:induction false} TreeMapNames(members: seq<Entry<Value>>)
    ensures TreeMap(members).Keys == Names(members)
    decreases |members|
  {
    hide TreeOf;
    if members != [] {
      TreeMapNames(members[1..]);
      assert Names(members) == Names(members[1..]) + {members[0].name} by {
        assert members == [members[0]] + members[1..];
      }
    }
  }

  lemma {:induction false} TreeMapAt(members: seq<Entry<Value>>, i: nat)
    requires Distinct(members) && i < |members|
    ensures members[i].name in TreeMap(members) && TreeMap(members)[members[i].name] == TreeOf(members[i].value)
    decreases |members|
  {
    hide TreeOf;
    if i > 0 {
      assert members[i] == members[1..][i - 1];
      TreeMapAt(members[1..], i - 1);
    }
  }

  /** Two well-formed values are the same if and only if they are the same tree. */
  lemma {:induction false} SameIffSameTree(a: Value, b: Value)
    requires WellFormed(a) && WellFormed(b)
    ensures Same(a, b) <==> TreeOf(a) == TreeOf(b)
    decreases a
  {
    if a.Array? && b.Array? {
      TreesAt(a.items);
      TreesAt(b.items);
      if |a.items| == |b.items| {
        forall i | 0 <= i < |a.items|
          ensures Same(a.items[i], b.items[i]) <==> TreesOf(a.items)[i] == TreesOf(b.items)[i]
        {
          SameIffSameTree(a.items[i], b.items[i]);
        }
      }
    } else if a.Object? && b.Object? {
      MembersSameIff(a, b);
    }
  }

  lemma {:induction false} MembersSameIff(a: Value, b: Value)
    requires a.Object? && b.Object? && WellFormed(a) && WellFormed(b)
    ensures Same(a, b) <==> TreeMap(a.members) == TreeMap(b.members)
    decreases a, 0
  {
    hide TreeOf, TreeMap;
    var x, y := a.members, b.members;
    TreeMapNames(x);
    TreeMapNames(y);
    forall i, j | 0 <= i < |x| && 0 <= j < |y| && x[i].name == y[j].name
      ensures Same(x[i].value, y[j].value) <==> TreeMap(x)[x[i].name] == TreeMap(y)[x[i].name]
    {
      TreeMapAt(x, i);
      TreeMapAt(y, j);
      SameIffSameTree(x[i].value, y[j].value);
    }
    if Same(a, b) {
      forall n | n in TreeMap(x) ensures TreeMap(x)[n] == TreeMap(y)[n] {
        NameIffFound(x, n);
        NameIffFound(y, n);
        assert x[Find(x, n)].name == n && y[Find(y, n)].name == n;
      }
    }
  }

  // ---------- Equal counts and distinct names make one inclusion enough ----------

  lemma {:induction false} DistinctNamesCount<V>(es: seq<Entry<V>>)
    requires Distinct(es)
    ensures |Names(es)| == |es|
    decreases |es|
  {
    if es != [] {
      var last := |es| - 1;
      DistinctNamesCount(es[..last]);
      assert Names(es) == Names(es[..last]) + {es[last].name} by {
        forall n ensures n in Names(es) <==> n in Names(es[..last]) + {es[last].name} {
          if n in Names(es) {
            var e :| e in es && e.name == n;
            assert e in es[..last] || e == es[last];
          }
        }
      }
      assert es[last].name !in Names(es[..last]);
    }
  }

  lemma {:induction false} SubsetOfEqualSize<T>(a: set<T>, b: set<T>)
    requires a <= b && |a| == |b|
    ensures a == b
  {
    if a != b {
      var x :| x in b && x !in a;
      SubsetIsSmaller(a, b - {x});
    }
  }

  lemma {:induction false} SubsetIsSmaller<T>(a: set<T>, b: set<T>)
    requires a <= b
    ensures |a| <= |b|
  {
    if a != {} {
      var x :| x in a;
      SubsetIsSmaller(a - {x}, b - {x});
    }
  }

  ghost predicate EachFound(x: seq<Entry<Value>>, y: seq<Entry<Value>>, n: nat) {
    forall i | 0 <= i < n <= |x| :: Find(y, x[i].name) < |y| && Same(x[i].value, y[Find(y, x[i].name)].value)
  }

  lemma OneSidedIsEnough(x: seq<Entry<Value>>, y: seq<Entry<Value>>)
    requires Distinct(x) && Distinct(y) && |x| == |y|
    ensures EachFound(x, y, |x|) <==> Same(Object(x), Object(y))
  {
    if EachFound(x, y, |x|) {
      forall n | n in Names(x) ensures n in Names(y) {
        var e :| e in x && e.name == n;
        var i :| 0 <= i < |x| && x[i] == e;
        NameIffFound(y, x[i].name);
      }
      DistinctNamesCount(x);
      DistinctNamesCount(y);
      SubsetOfEqualSize(Names(x), Names(y));
      forall i, j | 0 <= i < |x| && 0 <= j < |y| && x[i].name == y[j].name ensures Same(x[i].value, y[j].value) {
        FindIsUnique(y, j);
      }
    }
    if Same(Object(x), Object(y)) {
      forall i | 0 <= i < |x|
        ensures Find(y, x[i].name) < |y| && Same(x[i].value, y[Find(y, x[i].name)].value)
      {
        var j := NamedIn(x, i, y);
        FindIsUnique(y, j);
      }
    }
  }

  lemma DifferentCounts(x: seq<Entry<Value>>, y: seq<Entry<Value>>)
    requires Distinct(x) && Distinct(y) && |x| != |y|
    ensures !Same(Object(x), Object(y))
  {
    DistinctNamesCount(x);
    DistinctNamesCount(y);
  }

  // ---------- json_value_equals ----------

  ghost predicate SameOption(a: Option<Value>, b: Option<Value>) {
    match a
    case None => b.None?
    case Some(x) => b.Some? && Same(x, b.value)
  }

  /** A missing value, which has the error type, equals only a missing value. */
  method JsonValueEquals(a: Option<Value>, b: Option<Value>) returns (r: bool)
    requires a.Some? ==> WellFormed(a.value)
    requires b.Some? ==> WellFormed(b.value)
    ensures r == SameOption(a, b)
    ensures r <==> a.Some? == b.Some? && (a.Some? ==> TreeOf(a.value) == TreeOf(b.value))
    decreases if a.Some? then a.value else Null, 1
  {
    hide TreeOf;
    if a.None? || b.None? {
      return a.None? && b.None?;
    }
    SameIffSameTree(a.value, b.value);
    match a.value
    case Null => r := b.value.Null?;
    case Bool(x) => r := b.value.Bool? && b.value.b == x;
    case Number(n) => r := b.value.Number? && b.value.n == n;
    case Str(s) => r := b.value.Str? && b.value.s == s;
    case Array(items) =>
      if !b.value.Array? || |items| != |b.value.items| {
        return false;
      }
      for i := 0 to |items|
        invariant forall k | 0 <= k < i :: Same(items[k], b.value.items[k])
      {
        var same := JsonValueEquals(Some(items[i]), Some(b.value.items[i]));
        if !same {
          return false;
        }
      }
      return true;
    case Object(members) =>
      if !b.value.Object? {
        return false;
      }
      r := MembersEqual(a.value, b.value);
  }

  method MembersEqual(a: Value, b: Value) returns (r: bool)
    requires a.Object? && b.Object? && WellFormed(a) && WellFormed(b)
    ensures r == Same(a, b)
    decreases a, 0
  {
    var x, y := a.members, b.members;
    if |x| != |y| {
      DifferentCounts(x, y);
      return false;
    }
    OneSidedIsEnough(x, y);
    for i := 0 to |x|
      invariant EachFound(x, y, i)
    {
      var key := x[i].name;
      FindIsUnique(x, i);
      var f := Find(x, key);
      var other := Lookup(y, key);
      var same := JsonValueEquals(Some(x[f].value), other);
      if !same {
        return false;
      }
    }
    return true;
  }
}
