/** The counting search tree behind the order statistics, and its in-order walk. */
module CountingTree {

  /** A comparison function, and the number by which it compares. */
  datatype Order<!K> = Order(cmp: (K, K) -> int, rank: K -> real)

  ghost predicate Lawful<K(!new)>(ord: Order<K>) {
    && (forall a, b :: ord.cmp(a, b) < 0 <==> ord.rank(a) < ord.rank(b))
    && (forall a, b :: ord.cmp(a, b) > 0 <==> ord.rank(a) > ord.rank(b))
    && Injective(ord)
  }

  datatype Tree<K> = Empty | Branch(left: Tree<K>, data: K, count: nat, right: Tree<K>)

  datatype Entry<K> = Entry(data: K, count: nat)

  // ---------- What the tree holds ----------

  ghost predicate Below<K>(ord: Order<K>, t: Tree<K>, x: real) {
    t.Branch? ==> ord.rank(t.data) < x && Below(ord, t.left, x) && Below(ord, t.right, x)
  }

  ghost predicate Above<K>(ord: Order<K>, t: Tree<K>, x: real) {
    t.Branch? ==> ord.rank(t.data) > x && Above(ord, t.left, x) && Above(ord, t.right, x)
  }

  /** Search order, with every stored value counted at least once. */
  ghost predicate Ordered<K>(ord: Order<K>, t: Tree<K>) {
    t.Branch? ==>
      && t.count >= 1
      && Ordered(ord, t.left) && Below(ord, t.left, ord.rank(t.data))
      && Ordered(ord, t.right) && Above(ord, t.right, ord.rank(t.data))
  }

  ghost function Bag<K>(t: Tree<K>): multiset<K> {
    if t.Empty? then multiset{} else Bag(t.left) + multiset{}[t.data := t.count] + Bag(t.right)
  }

  function Inserted<K>(ord: Order<K>, t: Tree<K>, e: K): Tree<K> {
    if t.Empty? then Branch(Empty, e, 1, Empty)
    else
      var c := ord.cmp(t.data, e);
      if c == 0 then t.(count := t.count + 1)
      else if c > 0 then t.(left := Inserted(ord, t.left, e))
      else t.(right := Inserted(ord, t.right, e))
  }

  function InsertAll<K>(ord: Order<K>, xs: seq<K>): Tree<K> {
    if xs == [] then Empty
    else Inserted(ord, InsertAll(ord, xs[..|xs| - 1]), xs[|xs| - 1])
  }

  lemma {:induction false} InsertBelow<K>(ord: Order<K>, t: Tree<K>, e: K, x: real)
    requires Below(ord, t, x) && ord.rank(e) < x
    ensures Below(ord, Inserted(ord, t, e), x)
  {
    if t.Branch? {
      InsertBelow(ord, t.left, e, x);
      InsertBelow(ord, t.right, e, x);
    }
  }

  lemma {:induction false} InsertAbove<K>(ord: Order<K>, t: Tree<K>, e: K, x: real)
    requires Above(ord, t, x) && ord.rank(e) > x
    ensures Above(ord, Inserted(ord, t, e), x)
  {
    if t.Branch? {
      InsertAbove(ord, t.left, e, x);
      InsertAbove(ord, t.right, e, x);
    }
  }

  /** What the comparison of two values means. */
  lemma Compared<K(!new)>(ord: Order<K>, a: K, b: K)
    requires Lawful(ord)
    ensures ord.cmp(a, b) < 0 ==> ord.rank(a) < ord.rank(b)
    ensures ord.cmp(a, b) > 0 ==> ord.rank(a) > ord.rank(b)
    ensures ord.cmp(a, b) == 0 ==> a == b
  {
    assert ord.cmp(a, b) == 0 ==> ord.rank(a) == ord.rank(b);
  }

  /** An insertion keeps search order. */
  lemma {:induction false} InsertOrdered<K(!new)>(ord: Order<K>, t: Tree<K>, e: K)
    requires Lawful(ord) && Ordered(ord, t)
    ensures Ordered(ord, Inserted(ord, t, e))
  {
    if t.Branch? {
      Compared(ord, t.data, e);
      if ord.cmp(t.data, e) > 0 {
        InsertOrdered(ord, t.left, e);
        InsertBelow(ord, t.left, e, ord.rank(t.data));
      } else if ord.cmp(t.data, e) < 0 {
        InsertOrdered(ord, t.right, e);
        InsertAbove(ord, t.right, e, ord.rank(t.data));
      }
    }
  }

  /** An insertion adds one occurrence of the value. */
  lemma {:induction false} InsertCounts<K(!new)>(ord: Order<K>, t: Tree<K>, e: K)
    requires Lawful(ord)
    ensures Bag(Inserted(ord, t, e)) == Bag(t) + multiset{e}
  {
    if t.Branch? {
      Compared(ord, t.data, e);
      var l, c, r := Bag(t.left), multiset{}[t.data := t.count], Bag(t.right);
      if ord.cmp(t.data, e) > 0 {
        InsertCounts(ord, t.left, e);
        OneMore(l, c, r, e);
      } else if ord.cmp(t.data, e) < 0 {
        InsertCounts(ord, t.right, e);
      } else {
        assert multiset{}[e := t.count + 1] == c + multiset{e};
        OneMore(l, c, r, e);
      }
    }
  }

  lemma OneMore<K>(l: multiset<K>, c: multiset<K>, r: multiset<K>, e: K)
    ensures l + multiset{e} + c + r == l + c + r + multiset{e}
    ensures l + (c + multiset{e}) + r == l + c + r + multiset{e}
    ensures l + c + (r + multiset{e}) == l + c + r + multiset{e}
  {
  }

  /** Search order and multiplicities, whatever the insertion order. */
  lemma {:induction false} InsertAllKeeps<K(!new)>(ord: Order<K>, xs: seq<K>)
    requires Lawful(ord)
    ensures Ordered(ord, InsertAll(ord, xs)) && Bag(InsertAll(ord, xs)) == multiset(xs)
  {
    if xs != [] {
      var most := xs[..|xs| - 1];
      InsertAllKeeps(ord, most);
      InsertOrdered(ord, InsertAll(ord, most), xs[|xs| - 1]);
      InsertCounts(ord, InsertAll(ord, most), xs[|xs| - 1]);
      LastBag(xs);
    }
  }

  lemma LastBag<K>(s: seq<K>)
    requires s != []
    ensures multiset(s) == multiset(s[..|s| - 1]) + multiset{s[|s| - 1]}
  {
    assert s == s[..|s| - 1] + [s[|s| - 1]];
  }

  // ---------- In-order entries ----------

  function Entries<K>(t: Tree<K>): seq<Entry<K>> {
    if t.Empty? then [] else Entries(t.left) + ([Entry(t.data, t.count)] + Entries(t.right))
  }

  ghost predicate Increasing<K>(ord: Order<K>, es: seq<Entry<K>>) {
    && (forall i, j :: 0 <= i < j < |es| ==> ord.rank(es[i].data) < ord.rank(es[j].data))
    && (forall i :: 0 <= i < |es| ==> es[i].count >= 1)
  }

  lemma {:induction false} EntriesBelow<K>(ord: Order<K>, t: Tree<K>, x: real)
    requires Below(ord, t, x)
    ensures forall i :: 0 <= i < |Entries(t)| ==> ord.rank(Entries(t)[i].data) < x
  {
    if t.Branch? {
      EntriesBelow(ord, t.left, x);
      EntriesBelow(ord, t.right, x);
    }
  }

  lemma {:induction false} EntriesAbove<K>(ord: Order<K>, t: Tree<K>, x: real)
    requires Above(ord, t, x)
    ensures forall i :: 0 <= i < |Entries(t)| ==> ord.rank(Entries(t)[i].data) > x
  {
    if t.Branch? {
      EntriesAbove(ord, t.left, x);
      EntriesAbove(ord, t.right, x);
    }
  }

  lemma {:induction false} EntriesIncrease<K>(ord: Order<K>, t: Tree<K>)
    requires Ordered(ord, t)
    ensures Increasing(ord, Entries(t))
  {
    if t.Branch? {
      EntriesIncrease(ord, t.left);
      EntriesIncrease(ord, t.right);
      EntriesBelow(ord, t.left, ord.rank(t.data));
      EntriesAbove(ord, t.right, ord.rank(t.data));
      IncreasingJoin(ord, Entries(t.left), Entry(t.data, t.count), Entries(t.right));
    }
  }

  lemma IncreasingJoin<K>(ord: Order<K>, a: seq<Entry<K>>, e: Entry<K>, b: seq<Entry<K>>)
    requires Increasing(ord, a) && Increasing(ord, b) && e.count >= 1
    requires forall i :: 0 <= i < |a| ==> ord.rank(a[i].data) < ord.rank(e.data)
    requires forall i :: 0 <= i < |b| ==> ord.rank(b[i].data) > ord.rank(e.data)
    ensures Increasing(ord, a + ([e] + b))
  {
    var s := a + ([e] + b);
    forall i, j | 0 <= i < j < |s|
      ensures ord.rank(s[i].data) < ord.rank(s[j].data)
    {
      if i > |a| {
        assert s[i] == b[i - |a| - 1] && s[j] == b[j - |a| - 1];
      } else if j > |a| {
        assert s[j] == b[j - |a| - 1];
      }
    }
  }

  function Repeat<K>(x: K, c: nat): seq<K> {
    seq(c, _ => x)
  }

  /** The values with their multiplicities written out. */
  function Spread<K>(es: seq<Entry<K>>): seq<K> {
    if es == [] then [] else Repeat(es[0].data, es[0].count) + Spread(es[1..])
  }

  lemma {:induction false} SpreadAppend<K>(a: seq<Entry<K>>, b: seq<Entry<K>>)
    ensures Spread(a + b) == Spread(a) + Spread(b)
  {
    if a == [] {
      assert a + b == b;
    } else {
      assert (a + b)[1..] == a[1..] + b;
      SpreadAppend(a[1..], b);
    }
  }

  lemma {:induction false} RepeatBag<K>(x: K, c: nat)
    ensures multiset(Repeat(x, c)) == multiset{}[x := c]
  {
    if c > 0 {
      RepeatBag(x, c - 1);
      assert Repeat(x, c) == Repeat(x, c - 1) + [x];
    } else {
      assert Repeat(x, c) == [];
    }
  }

  lemma {:induction false} SpreadBag<K>(t: Tree<K>)
    ensures multiset(Spread(Entries(t))) == Bag(t)
  {
    if t.Branch? {
      var e := [Entry(t.data, t.count)];
      SpreadBag(t.left);
      SpreadBag(t.right);
      RepeatBag(t.data, t.count);
      SpreadAppend(Entries(t.left), e + Entries(t.right));
      assert (e + Entries(t.right))[1..] == Entries(t.right);
    }
  }

  ghost predicate Sorted<K>(ord: Order<K>, s: seq<K>) {
    forall i, j :: 0 <= i < j < |s| ==> ord.rank(s[i]) <= ord.rank(s[j])
  }

  lemma {:induction false} SpreadFrom<K>(ord: Order<K>, es: seq<Entry<K>>, x: real)
    requires forall i :: 0 <= i < |es| ==> ord.rank(es[i].data) >= x
    ensures forall i :: 0 <= i < |Spread(es)| ==> ord.rank(Spread(es)[i]) >= x
  {
    if es != [] {
      SpreadFrom(ord, es[1..], x);
    }
  }

  lemma {:induction false} SpreadSorted<K>(ord: Order<K>, es: seq<Entry<K>>)
    requires Increasing(ord, es)
    ensures Sorted(ord, Spread(es))
  {
    if es != [] {
      SpreadSorted(ord, es[1..]);
      SpreadFrom(ord, es[1..], ord.rank(es[0].data));
    }
  }

  /** A multiset has only one sorted sequence. */
  lemma {:induction false} SortedUnique<K(!new)>(ord: Order<K>, s: seq<K>, t: seq<K>)
    requires Injective(ord) && Sorted(ord, s) && Sorted(ord, t) && multiset(s) == multiset(t)
    ensures s == t
    decreases |s|
  {
    SameSize(s, t);
    if s != [] {
      FirstSame(ord, s, t);
      RestSame(ord, s, t);
      SortedUnique(ord, s[1..], t[1..]);
      Glue(s, t);
    }
  }

  lemma Glue<K>(s: seq<K>, t: seq<K>)
    requires s != [] && t != [] && s[0] == t[0] && s[1..] == t[1..]
    ensures s == t
  {
    assert s == [s[0]] + s[1..] && t == [t[0]] + t[1..];
  }

  lemma SameSize<K>(s: seq<K>, t: seq<K>)
    requires multiset(s) == multiset(t)
    ensures |s| == |t|
  {
    assert |multiset(s)| == |s| && |multiset(t)| == |t|;
  }

  lemma RestSame<K>(ord: Order<K>, s: seq<K>, t: seq<K>)
    requires s != [] && t != [] && s[0] == t[0] && multiset(s) == multiset(t)
    requires Sorted(ord, s) && Sorted(ord, t)
    ensures multiset(s[1..]) == multiset(t[1..]) && Sorted(ord, s[1..]) && Sorted(ord, t[1..])
  {
    RestBag(s);
    RestBag(t);
  }

  lemma RestBag<K>(s: seq<K>)
    requires s != []
    ensures multiset(s[1..]) == multiset(s) - multiset{s[0]}
  {
    assert s == [s[0]] + s[1..];
  }

  ghost predicate Injective<K(!new)>(ord: Order<K>) {
    forall a, b :: ord.rank(a) == ord.rank(b) ==> a == b
  }

  lemma FirstSame<K(!new)>(ord: Order<K>, s: seq<K>, t: seq<K>)
    requires Injective(ord) && Sorted(ord, s) && Sorted(ord, t) && multiset(s) == multiset(t)
    requires s != [] && t != []
    ensures s[0] == t[0]
  {
    assert s[0] in multiset(t) && t[0] in multiset(s);
    var i :| 0 <= i < |t| && t[i] == s[0];
    var j :| 0 <= j < |s| && s[j] == t[0];
    assert ord.rank(t[0]) <= ord.rank(t[i]) && ord.rank(s[0]) <= ord.rank(s[j]);
  }

  /** In any insertion order, the entries count the values inserted, in increasing order. */
  lemma EntriesOfAll<K(!new)>(ord: Order<K>, xs: seq<K>)
    requires Lawful(ord)
    ensures Increasing(ord, Entries(InsertAll(ord, xs)))
    ensures multiset(Spread(Entries(InsertAll(ord, xs)))) == multiset(xs)
  {
    InsertAllKeeps(ord, xs);
    EntriesIncrease(ord, InsertAll(ord, xs));
    SpreadBag(InsertAll(ord, xs));
  }

  /** In any insertion order, the walk lists the sorted sequence of the values inserted. */
  lemma WalkSorts<K(!new)>(ord: Order<K>, xs: seq<K>, s: seq<K>)
    requires Lawful(ord) && Sorted(ord, s) && multiset(s) == multiset(xs)
    ensures Spread(Entries(InsertAll(ord, xs))) == s
  {
    EntriesOfAll(ord, xs);
    SpreadSorted(ord, Entries(InsertAll(ord, xs)));
    SortedUnique(ord, Spread(Entries(InsertAll(ord, xs))), s);
  }

  // ---------- Walking ----------

  function Walk<K, C>(iter: (K, nat, C) -> C, t: Tree<K>, p: C): C {
    if t.Empty? then p
    else Walk(iter, t.right, iter(t.data, t.count, Walk(iter, t.left, p)))
  }

  function Fold<K, C>(iter: (K, nat, C) -> C, es: seq<Entry<K>>, p: C): C
    decreases |es|
  {
    if es == [] then p else Fold(iter, es[1..], iter(es[0].data, es[0].count, p))
  }

  lemma {:induction false} FoldAppend<K, C>(iter: (K, nat, C) -> C, a: seq<Entry<K>>, b: seq<Entry<K>>, p: C)
    ensures Fold(iter, a + b, p) == Fold(iter, b, Fold(iter, a, p))
    decreases |a|
  {
    if a == [] {
      assert a + b == b;
    } else {
      assert (a + b)[1..] == a[1..] + b;
      FoldAppend(iter, a[1..], b, iter(a[0].data, a[0].count, p));
    }
  }

  lemma {:induction false} WalkIsFold<K, C>(iter: (K, nat, C) -> C, t: Tree<K>, p: C)
    ensures Walk(iter, t, p) == Fold(iter, Entries(t), p)
  {
    if t.Branch? {
      var e := [Entry(t.data, t.count)];
      WalkIsFold(iter, t.left, p);
      FoldAppend(iter, Entries(t.left), e + Entries(t.right), p);
      var q := Walk(iter, t.left, p);
      assert (e + Entries(t.right))[1..] == Entries(t.right);
      WalkIsFold(iter, t.right, iter(t.data, t.count, q));
    }
  }

  // ---------- The tree in memory ----------

  class Node<K> {
    const data: K
    var count: nat
    var left: Node?<K>
    var right: Node?<K>
    ghost var Repr: set<object>

    ghost predicate Valid()
      reads this, Repr
      decreases Repr
    {
      && this in Repr
      && (left != null ==> left in Repr && left.Repr <= Repr && this !in left.Repr && left.Valid())
      && (right != null ==> right in Repr && right.Repr <= Repr && this !in right.Repr && right.Valid())
      && (left != null && right != null ==> left.Repr !! right.Repr)
    }

    ghost function View(): Tree<K>
      requires Valid()
      reads this, Repr
      decreases Repr
    {
      Branch(if left == null then Empty else left.View(), data, count,
             if right == null then Empty else right.View())
    }

    constructor (e: K)
      ensures Valid() && Repr == {this} && View() == Branch(Empty, e, 1, Empty)
    {
      data, count, left, right := e, 1, null, null;
      Repr := {this};
    }
  }

  ghost function ViewOf<K>(n: Node?<K>): Tree<K>
    requires n != null ==> n.Valid()
    reads n, if n == null then {} else n.Repr
  {
    if n == null then Empty else n.View()
  }

  /** `node_insert`: the pointer it is given ends up at `r`. */
  method Insert<K>(ord: Order<K>, n: Node?<K>, e: K) returns (r: Node<K>)
    requires n != null ==> n.Valid()
    modifies if n == null then {} else n.Repr
    ensures r.Valid() && r.View() == Inserted(ord, old(ViewOf(n)), e)
    ensures n != null ==> r == n && fresh(r.Repr - old(n.Repr))
    ensures n == null ==> fresh(r.Repr)
    decreases if n == null then {} else n.Repr
  {
    if n == null {
      r := new Node(e);
    } else {
      r := n;
      var c := ord.cmp(n.data, e);
      if c == 0 {
        n.count := n.count + 1;
      } else if c > 0 {
        n.left := Insert(ord, n.left, e);
        n.Repr := n.Repr + n.left.Repr;
      } else {
        n.right := Insert(ord, n.right, e);
        n.Repr := n.Repr + n.right.Repr;
      }
    }
  }

  /** `node_iterate`. */
  method Iterate<K, C>(n: Node?<K>, iter: (K, nat, C) -> C, p: C) returns (q: C)
    requires n != null ==> n.Valid()
    ensures q == Walk(iter, ViewOf(n), p)
    decreases if n == null then {} else n.Repr
  {
    q := p;
    if n != null {
      if n.left != null {
        q := Iterate(n.left, iter, q);
      }
      q := iter(n.data, n.count, q);
      if n.right != null {
        q := Iterate(n.right, iter, q);
      }
    }
  }

  /** The `map` record: a comparison and the root pointer. */
  class Map<!K> {
    const ord: Order<K>
    var base: Node?<K>
    ghost var Repr: set<object>

    /** Filled by inserting `xs` one after the other. */
    ghost predicate Holds(xs: seq<K>)
      reads this, Repr
    {
      && this in Repr
      && (base != null ==> base in Repr && base.Repr <= Repr && this !in base.Repr && base.Valid())
      && ViewOf(base) == InsertAll(ord, xs)
    }

    constructor (ord: Order<K>)
      ensures Holds([]) && fresh(Repr) && this.ord == ord
    {
      this.ord := ord;
      base := null;
      Repr := {this};
    }

    /** `map_insert`. */
    method Add(x: K, ghost xs: seq<K>)
      requires Holds(xs)
      modifies Repr
      ensures Holds(xs + [x]) && fresh(Repr - old(Repr))
    {
      assert (xs + [x])[..|xs|] == xs;
      base := Insert(ord, base, x);
      Repr := Repr + base.Repr;
    }

    /** `map_iterate`. */
    method Visit<C>(iter: (K, nat, C) -> C, p: C, ghost xs: seq<K>) returns (q: C)
      requires Holds(xs)
      ensures q == Walk(iter, InsertAll(ord, xs), p)
    {
      q := Iterate(base, iter, p);
    }
  }
}
