/**
 A binary heap over a table that counts from one, whose elements may store their own
 positions.
 */
module Heaps {
  import opened Options

  /** `less` is a strict order, and not being less is transitive: what it orders is a total preorder. */
  ghost predicate IsOrder<V(!new)>(less: (V, V) -> bool) {
    && (forall a, b :: less(a, b) ==> !less(b, a))
    && (forall a, b, c :: !less(b, a) && !less(c, b) ==> !less(c, a))
  }

  class Item<V> {
    const key: V
    /** The position in the heap; zero stands for none. */
    var index: nat

    constructor (key: V)
      ensures this.key == key && index == 0
    {
      this.key, index := key, 0;
    }
  }

  // ---------- Order ----------

  /** The element at position `i`, counting from one. */
  function At<V>(t: seq<Item<V>>, i: nat): Item<V>
    requires 1 <= i <= |t|
  {
    t[i - 1]
  }

  predicate InOrder<V>(less: (V, V) -> bool, t: seq<Item<V>>, i: nat)
    requires 1 < i <= |t|
  {
    !less(At(t, i).key, At(t, i / 2).key)
  }

  /** No element is less than its parent. */
  predicate Ordered<V>(less: (V, V) -> bool, t: seq<Item<V>>) {
    forall i :: 1 < i <= |t| ==> InOrder(less, t, i)
  }

  /** Ordered, but perhaps for `child` and its parent. */
  predicate OrderedAbove<V>(less: (V, V) -> bool, t: seq<Item<V>>, child: nat)
    requires 1 <= child <= |t|
  {
    && (forall i :: 1 < i <= |t| && i != child ==> InOrder(less, t, i))
    && (forall i :: 1 < i <= |t| && i / 2 == child && child > 1 ==> !less(At(t, i).key, At(t, child / 2).key))
  }

  /** Ordered, but perhaps for `parent` and its children. */
  predicate OrderedBelow<V>(less: (V, V) -> bool, t: seq<Item<V>>, parent: nat)
    requires 1 <= parent
  {
    && (forall i :: 1 < i <= |t| && i / 2 != parent ==> InOrder(less, t, i))
    && (forall i :: 1 < i <= |t| && i / 2 == parent && parent > 1 ==> !less(At(t, i).key, At(t, parent / 2).key))
  }

  function Exchanged<V>(t: seq<V>, i: nat, j: nat): (s: seq<V>)
    requires 1 <= i <= |t| && 1 <= j <= |t|
    ensures |s| == |t|
  {
    t[i - 1 := t[j - 1]][j - 1 := t[i - 1]]
  }

  lemma ExchangedElements<V>(t: seq<V>, i: nat, j: nat)
    requires 1 <= i <= |t| && 1 <= j <= |t|
    ensures multiset(Exchanged(t, i, j)) == multiset(t)
  {
  }

  lemma SameMembers<V>(s: seq<V>, t: seq<V>)
    requires multiset(s) == multiset(t)
    ensures forall i :: 0 <= i < |t| ==> t[i] in s
    ensures forall i :: 0 <= i < |s| ==> s[i] in t
    ensures forall x :: x in t <==> x in s
  {
    assert forall x :: x in s <==> multiset(s)[x] > 0;
    assert forall x :: x in t <==> multiset(t)[x] > 0;
  }

  lemma SameMember<V>(s: seq<V>, t: seq<V>, x: V)
    requires multiset(s) == multiset(t)
    ensures x in s <==> x in t
  {
    assert x in s <==> multiset(s)[x] > 0;
    assert x in t <==> multiset(t)[x] > 0;
  }

  lemma ExchangedAt<V>(t: seq<Item<V>>, i: nat, j: nat)
    requires 1 <= i <= |t| && 1 <= j <= |t|
    ensures At(Exchanged(t, i, j), j) == At(t, i) && At(Exchanged(t, i, j), i) == At(t, j)
  {
  }

  /** The root is a least element. */
  lemma {:induction false} RootIsLeast<V(!new)>(less: (V, V) -> bool, t: seq<Item<V>>, i: nat)
    requires IsOrder(less) && Ordered(less, t) && 1 <= i <= |t|
    ensures !less(At(t, i).key, At(t, 1).key)
  {
    if i > 1 {
      assert InOrder(less, t, i);
      RootIsLeast(less, t, i / 2);
    }
  }

  /** One step up: the smaller child changes places with its parent. */
  lemma StepUp<V(!new)>(less: (V, V) -> bool, t: seq<Item<V>>, child: nat)
    requires IsOrder(less) && 1 < child <= |t| && OrderedAbove(less, t, child)
    requires less(At(t, child).key, At(t, child / 2).key)
    ensures OrderedAbove(less, Exchanged(t, child, child / 2), child / 2)
  {
    var s, parent := Exchanged(t, child, child / 2), child / 2;
    forall i | 1 < i <= |s| && i != parent
      ensures InOrder(less, s, i)
    {
      if i != child {
        assert InOrder(less, t, i);
      }
    }
    forall i | 1 < i <= |s| && i / 2 == parent && parent > 1
      ensures !less(At(s, i).key, At(s, parent / 2).key)
    {
      assert InOrder(less, t, parent);
      if i != child {
        assert InOrder(less, t, i);
      }
    }
  }

  lemma HighEnough<V(!new)>(less: (V, V) -> bool, t: seq<Item<V>>, child: nat)
    requires 1 <= child <= |t| && OrderedAbove(less, t, child)
    ensures Ordered(less, t) <==> !Rises(less, t, child)
    ensures Ordered(less, t) <==> (child > 1 ==> InOrder(less, t, child))
  {
    assert child > 1 ==> (InOrder(less, t, child) <==> !Rises(less, t, child));
  }

  /** One step down: the smaller of two children changes places with its parent. */
  lemma StepDown<V(!new)>(less: (V, V) -> bool, t: seq<Item<V>>, parent: nat, child: nat)
    requires IsOrder(less) && 1 <= parent && child / 2 == parent && child <= |t| && OrderedBelow(less, t, parent)
    requires forall i :: 1 < i <= |t| && i / 2 == parent ==> !less(At(t, i).key, At(t, child).key)
    requires less(At(t, child).key, At(t, parent).key)
    ensures OrderedBelow(less, Exchanged(t, parent, child), child)
  {
    var s := Exchanged(t, parent, child);
    forall i | 1 < i <= |s| && i / 2 != child
      ensures InOrder(less, s, i)
    {
      if i == parent {
        assert !less(At(t, child).key, At(t, parent / 2).key);
      } else if i / 2 == parent {
        assert !less(At(t, i).key, At(t, child).key);
      } else {
        assert InOrder(less, t, i);
      }
    }
    forall i | 1 < i <= |s| && i / 2 == child
      ensures !less(At(s, i).key, At(s, child / 2).key)
    {
      assert InOrder(less, t, i);
    }
  }

  lemma LowEnough<V(!new)>(less: (V, V) -> bool, t: seq<Item<V>>, parent: nat)
    requires 1 <= parent && OrderedBelow(less, t, parent)
    ensures parent <= |t| && !Sinks(less, t, parent) ==> Ordered(less, t)
    ensures parent > |t| ==> Ordered(less, t)
  {
    forall i | 1 < i <= |t| && (i / 2 == parent ==> parent <= |t| && !Sinks(less, t, parent))
      ensures InOrder(less, t, i)
    {
      if i / 2 == parent {
        assert i == 2 * parent || i == 2 * parent + 1;
      }
    }
  }

  /** Ordered, but perhaps for the element at `i`, which has just been put there. */
  predicate OrderedAround<V>(less: (V, V) -> bool, t: seq<Item<V>>, i: nat)
    requires 1 <= i
  {
    && (forall k :: 1 < k <= |t| && k != i && k / 2 != i ==> InOrder(less, t, k))
    && (forall k :: 1 < k <= |t| && k / 2 == i && i > 1 ==> !less(At(t, k).key, At(t, i / 2).key))
  }

  /** Such an element has to move up, or down, or not at all. */
  lemma UpOrDown<V(!new)>(less: (V, V) -> bool, t: seq<Item<V>>, i: nat)
    requires IsOrder(less) && 1 <= i <= |t| && OrderedAround(less, t, i)
    ensures Rises(less, t, i) ==> !Sinks(less, t, i) && OrderedAbove(less, t, i)
    ensures !Rises(less, t, i) ==> OrderedBelow(less, t, i)
  {
    forall k | 1 < k <= |t| && k / 2 == i && Rises(less, t, i)
      ensures InOrder(less, t, k)
    {
      assert !less(At(t, k).key, At(t, i / 2).key);
    }
    if Rises(less, t, i) {
      assert 2 * i <= |t| ==> InOrder(less, t, 2 * i);
      assert 2 * i + 1 <= |t| ==> InOrder(less, t, 2 * i + 1);
    }
  }

  /** Putting another element in a place of a heap. */
  lemma Placed<V(!new)>(less: (V, V) -> bool, t: seq<Item<V>>, i: nat, v: Item<V>)
    requires IsOrder(less) && Ordered(less, t) && 1 <= i <= |t|
    ensures OrderedAround(less, t[i - 1 := v], i)
    ensures multiset(t[i - 1 := v]) == multiset(t) - multiset{At(t, i)} + multiset{v}
  {
    var s := t[i - 1 := v];
    forall k | 1 < k <= |s| && k != i && k / 2 != i
      ensures InOrder(less, s, k)
    {
      assert InOrder(less, t, k);
    }
    forall k | 1 < k <= |s| && k / 2 == i && i > 1
      ensures !less(At(s, k).key, At(s, i / 2).key)
    {
      assert InOrder(less, t, k) && InOrder(less, t, i);
    }
  }

  /** A heap without its last element. */
  lemma WithoutLast<V>(less: (V, V) -> bool, t: seq<Item<V>>)
    requires Ordered(less, t) && t != []
    ensures Ordered(less, t[..|t| - 1])
    ensures multiset(t) == multiset(t[..|t| - 1]) + multiset{t[|t| - 1]}
  {
    var s := t[..|t| - 1];
    assert t == s + [t[|t| - 1]];
    forall i | 1 < i <= |s|
      ensures InOrder(less, s, i)
    {
      assert InOrder(less, t, i);
    }
  }

  // ---------- Positions ----------

  ghost predicate IndexOk<V>(t: seq<Item<V>>)
    reads t`index
  {
    IndexOkBut(t, 0)
  }

  /** Elements are distinct, and each knows its position, but perhaps the one at `k`. */
  ghost predicate IndexOkBut<V>(t: seq<Item<V>>, k: nat)
    reads t`index
  {
    && (forall i, j :: 0 <= i < j < |t| ==> t[i] != t[j])
    && (forall i :: 0 <= i < |t| && i + 1 != k ==> t[i].index == i + 1)
  }

  /** Is the element at `i` less than its parent? */
  predicate Rises<V>(less: (V, V) -> bool, t: seq<Item<V>>, i: nat)
    requires 1 <= i <= |t|
  {
    i > 1 && less(At(t, i).key, At(t, i / 2).key)
  }

  lemma RisesIs<V>(less: (V, V) -> bool, t: seq<Item<V>>, i: nat)
    requires 1 <= i <= |t|
    ensures Rises(less, t, i) <==> i > 1 && less(At(t, i).key, At(t, i / 2).key)
  {
  }

  /** Is a child of position `i` less than the element there? */
  predicate Sinks<V>(less: (V, V) -> bool, t: seq<Item<V>>, i: nat)
    requires 1 <= i <= |t|
  {
    || (2 * i <= |t| && less(At(t, 2 * i).key, At(t, i).key))
    || (2 * i + 1 <= |t| && less(At(t, 2 * i + 1).key, At(t, i).key))
  }

  // ---------- The heap ----------

  class Heap<V(!new)> {
    const less: (V, V) -> bool
    /** Is there a key under which elements store their positions? */
    const indexed: bool
    var t: seq<Item<V>>

    ghost predicate Valid()
      reads this`t
    {
      IsOrder(less) && Ordered(less, t)
    }

    constructor (less: (V, V) -> bool, indexed: bool)
      requires IsOrder(less)
      ensures Valid() && t == [] && this.less == less && this.indexed == indexed
    {
      this.less, this.indexed, t := less, indexed, [];
    }

    method Add(v: Item<V>)
      modifies this`t, v`index
      ensures t == old(t) + [v]
      ensures indexed && old(IndexOk(t)) && v !in old(t) ==> IndexOk(t)
    {
      t := t + [v];
      if indexed {
        v.index := |t|;
      }
    }

    method Rem()
      requires t != []
      modifies this`t, t`index
      ensures t == old(t[..|t| - 1])
      ensures indexed ==> old(t[|t| - 1]).index == 0
      ensures indexed && old(IndexOkBut(t, |t|)) ==> IndexOk(t)
    {
      if indexed {
        t[|t| - 1].index := 0;
      }
      t := t[..|t| - 1];
    }

    method Swap(i: nat, j: nat)
      requires 1 <= i <= |t| && 1 <= j <= |t|
      modifies this`t, t`index
      ensures t == Exchanged(old(t), i, j)
      ensures indexed && old(IndexOkBut(t, i) || IndexOkBut(t, j)) ==> IndexOk(t)
    {
      t := Exchanged(t, i, j);
      if indexed {
        assert t[i - 1] in old(t) && t[j - 1] in old(t);
        t[i - 1].index := i;
        t[j - 1].index := j;
      }
    }

    /** What a change of places keeps. */
    twostate predicate Rearranged()
      reads this`t, t`index
    {
      && |t| == |old(t)| && multiset(t) == multiset(old(t))
      && (forall x :: x in t ==> x in old(t))
      && (forall x :: x in old(t) ==> x in t)
    }

    method MoveUp(from: nat) returns (child: nat)
      requires IsOrder(less) && 1 <= from <= |t| && (OrderedAbove(less, t, from) || !Rises(less, t, from))
      modifies this`t, t`index
      ensures 1 <= child <= |t| && Rearranged() && At(t, child) == old(At(t, from))
      ensures old(OrderedAbove(less, t, from)) ==> Ordered(less, t)
      ensures child == from <==> !old(Rises(less, t, from))
      ensures child == from ==> t == old(t) && forall x :: x in t ==> x.index == old(x.index)
      ensures indexed && child != from && old(IndexOkBut(t, from)) ==> IndexOk(t)
      ensures indexed && old(IndexOk(t)) ==> IndexOk(t)
    {
      hide IsOrder, OrderedAbove, Ordered, IndexOk, IndexOkBut, Exchanged, Rises;
      RisesIs(less, t, from);
      ghost var start, ok, okBut, rises := t, IndexOk(t), IndexOkBut(t, from), Rises(less, t, from);
      ghost var above := OrderedAbove(less, t, from);
      child := from;
      var parent := child / 2;
      while child > 1 && less(At(t, child).key, At(t, parent).key)
        invariant 1 <= child <= from && parent == child / 2
        invariant |t| == |start| && multiset(t) == multiset(start)
        invariant (above ==> OrderedAbove(less, t, child)) && At(t, child) == At(start, from)
        invariant child == from ==> t == start && forall x :: x in start ==> x.index == old(x.index)
        invariant child < from ==> rises
        invariant rises ==> above
        invariant indexed && ok ==> IndexOk(t)
        invariant indexed && okBut ==> if child == from then IndexOkBut(t, from) else IndexOk(t)
        decreases child
      {
        StepUp(less, t, child);
        ExchangedElements(t, child, parent);
        ExchangedAt(t, child, parent);
        SameMembers(start, t);
        IndexOkIsBut(child);
        Swap(child, parent);
        child := parent;
        parent := child / 2;
      }
      if above {
        HighEnough(less, t, child);
      }
      SameMembers(start, t);
    }

    lemma IndexOkIsBut(k: nat)
      ensures IndexOk(t) ==> IndexOkBut(t, k)
    {
    }

    /** The smaller child of a position. */
    method SmallerChild(parent: nat) returns (child: nat)
      requires IsOrder(less) && 1 <= parent && 2 * parent <= |t|
      ensures child / 2 == parent && child <= |t|
      ensures forall i :: 1 < i <= |t| && i / 2 == parent ==> !less(At(t, i).key, At(t, child).key)
      ensures less(At(t, child).key, At(t, parent).key) <==> Sinks(less, t, parent)
    {
      child := 2 * parent;
      if child + 1 <= |t| && less(At(t, child + 1).key, At(t, child).key) {
        child := child + 1;
      }
      forall i | 1 < i <= |t| && i / 2 == parent
        ensures !less(At(t, i).key, At(t, child).key)
      {
        assert i == 2 * parent || i == 2 * parent + 1;
      }
    }

    method MoveDown(from: nat) returns (parent: nat)
      requires IsOrder(less) && 1 <= from
      requires OrderedBelow(less, t, from) || !(from <= |t| && Sinks(less, t, from))
      modifies this`t, t`index
      ensures Rearranged() && (old(OrderedBelow(less, t, from)) ==> Ordered(less, t))
      ensures parent == from <==> !old(from <= |t| && Sinks(less, t, from))
      ensures parent == from ==> t == old(t) && forall x :: x in t ==> x.index == old(x.index)
      ensures indexed && parent != from && old(IndexOkBut(t, from)) ==> IndexOk(t)
      ensures indexed && old(IndexOk(t)) ==> IndexOk(t)
    {
      hide IsOrder, OrderedBelow, Ordered, IndexOk, IndexOkBut, Exchanged, Sinks;
      ghost var start, ok, okBut := t, IndexOk(t), IndexOkBut(t, from);
      ghost var sinks, below := from <= |t| && Sinks(less, t, from), OrderedBelow(less, t, from);
      SinksIs(less, t, from);
      parent := from;
      while 2 * parent <= |t|
        invariant from <= parent && |t| == |start| && multiset(t) == multiset(start)
        invariant (below ==> OrderedBelow(less, t, parent)) && (sinks ==> below)
        invariant parent == from ==> t == start && forall x :: x in start ==> x.index == old(x.index)
        invariant from < parent ==> sinks
        invariant indexed && ok ==> IndexOk(t)
        invariant indexed && okBut ==> if parent == from then IndexOkBut(t, from) else IndexOk(t)
        decreases |t| - parent
      {
        var child := SmallerChild(parent);
        if !less(At(t, child).key, At(t, parent).key) {
          break;
        }
        StepDown(less, t, parent, child);
        ExchangedElements(t, parent, child);
        SameMembers(start, t);
        IndexOkIsBut(parent);
        Swap(parent, child);
        parent := child;
      }
      SinksIs(less, t, parent);
      if below {
        LowEnough(less, t, parent);
      }
      SameMembers(start, t);
    }

    /** One more element; `child` is the position it gets. */
    method Push(v: Item<V>) returns (child: nat)
      requires Valid()
      modifies this`t, t`index, v`index
      ensures Valid() && multiset(t) == multiset(old(t)) + multiset{v}
      ensures 1 <= child <= |t| && At(t, child) == v
      ensures indexed && old(IndexOk(t)) && v !in old(t) ==> IndexOk(t)
    {
      hide IsOrder, IndexOk;
      AddedLast(less, t, v);
      Add(v);
      child := MoveUp(|t|);
    }

    /** Take out the element at `i`; the last one takes its place. */
    method TakeOut(i: nat)
      requires 1 <= i <= |t|
      modifies this`t, t`index
      ensures t == Remaining(old(t), i)
      ensures indexed && old(IndexOk(t)) ==> IndexOk(t) && old(At(t, i)).index == 0 && old(At(t, i)) !in t
    {
      TakenOut(t, i);
      IndexOkIsBut(i);
      ghost var start := t;
      ExchangedElements(t, i, |t|);
      SameMembers(start, Exchanged(t, i, |t|));
      hide Exchanged, IndexOk, IndexOkBut;
      Swap(i, |t|);
      IndexOkIsBut(|t|);
      LastIsElsewhere(t);
      Rem();
    }

    lemma LastIsElsewhere(t: seq<Item<V>>)
      ensures IndexOk(t) && t != [] ==> t[|t| - 1] !in t[..|t| - 1]
    {
    }

    /** Take out the element at `i`; the last one takes its place and moves down. */
    method Discard(i: nat)
      requires Valid() && 1 <= i <= |t|
      modifies this`t, t`index
      ensures multiset(t) == multiset(old(t)) - multiset{old(At(t, i))}
      ensures Ordered(less, t) <==>
              i == 1 || i == |old(t)| || !less(old(At(t, |t|)).key, old(At(t, i / 2)).key)
      ensures indexed && old(IndexOk(t)) ==> IndexOk(t) && old(At(t, i)).index == 0
    {
      hide IsOrder, Ordered, OrderedBelow, Sinks, Remaining, IndexOk;
      RemainingOrder(less, t, i);
      RemainingElements(t, i);
      TakeOut(i);
      var j := MoveDown(i);
    }

    /** Take out the element at `i`, or the root; nothing to be had from an empty heap. */
    method Pop(i: Option<nat>) returns (r: Option<Item<V>>)
      requires Valid() && (i.Some? && t != [] ==> 1 <= i.value <= |t|)
      modifies this`t, t`index
      ensures old(t) == [] ==> r == None && t == []
      ensures old(t) != [] ==>
                var k := if i.Some? then i.value else 1;
                && r == Some(old(At(t, k))) && multiset(t) == multiset(old(t)) - multiset{r.value}
                && (Valid() <==> k == 1 || k == |old(t)| || !less(old(At(t, |t|)).key, old(At(t, k / 2)).key))
                && (k == 1 ==> forall x :: x in t ==> !less(x.key, r.value.key))
                && (indexed && old(IndexOk(t)) ==> IndexOk(t) && r.value.index == 0)
    {
      if t == [] {
        return None;
      }
      var k := if i.Some? then i.value else 1;
      r := Some(At(t, k));
      RootIsLeastOfAll(less, t);
      RemainingElements(t, k);
      ghost var start := t;
      hide Ordered, IndexOk;
      Discard(k);
      assert forall x :: x in t ==> multiset(t)[x] > 0;
      assert forall x :: x in start <==> multiset(start)[x] > 0;
    }

    /** Restore order when only the element at `i` can be out of place. */
    method Rebalance(i: nat)
      requires IsOrder(less) && 1 <= i <= |t| && OrderedAround(less, t, i)
      modifies this`t, t`index
      ensures Valid() && Rearranged()
      ensures !old(Moves(less, t, i)) ==> t == old(t) && forall x :: x in t ==> x.index == old(x.index)
      ensures indexed && old(Moves(less, t, i)) && old(IndexOkBut(t, i)) ==> IndexOk(t)
      ensures indexed && old(IndexOk(t)) ==> IndexOk(t)
    {
      UpOrDown(less, t, i);
      hide IsOrder, OrderedAround, OrderedBelow, OrderedAbove, Ordered, Rises, Sinks, IndexOk, IndexOkBut;
      var child := MoveUp(i);
      if child == i {
        var parent := MoveDown(i);
      }
    }

    /** Put `v` in the place of the element at `i`. */
    method Replace(i: nat, v: Item<V>) returns (ok: bool)
      requires Valid()
      modifies this`t, t`index, v`index
      ensures ok <==> 1 <= i <= |old(t)|
      ensures !ok ==> t == old(t) && forall x :: x in t ==> x.index == old(x.index)
      ensures Valid()
      ensures ok ==> multiset(t) == multiset(old(t)) - multiset{old(t[i - 1])} + multiset{v}
      ensures ok && indexed && old(IndexOk(t)) && (v !in old(t) || v == old(t[i - 1])) ==>
                (IndexOk(t) <==> old(v.index) == i || Moves(less, old(t)[i - 1 := v], i))
      ensures ok && !Moves(less, old(t)[i - 1 := v], i) ==>
                t == old(t)[i - 1 := v] && forall x :: x in t ==> x.index == old(x.index)
      ensures ok && old(IndexOk(t)) && v !in old(t) ==>
                old(t[i - 1]) !in t && (indexed ==> old(t[i - 1]).index == i)
    {
      if !(1 <= i <= |t|) {
        return false;
      }
      Placed(less, t, i, v);
      PlacedIndex(t, i, v);
      DisplacedIsOut(t, i, v);
      hide IsOrder, OrderedAround, Ordered, Moves, IndexOk, IndexOkBut;
      t := t[i - 1 := v];
      ghost var placed := t;
      Rebalance(i);
      SameMember(placed, t, old(t[i - 1]));
      ok := true;
    }

    lemma DisplacedIsOut(t: seq<Item<V>>, i: nat, v: Item<V>)
      requires 1 <= i <= |t|
      ensures IndexOk(t) && v !in t ==> t[i - 1] !in t[i - 1 := v] && (indexed ==> t[i - 1].index == i)
    {
    }

    lemma PlacedIndex(t: seq<Item<V>>, i: nat, v: Item<V>)
      requires 1 <= i <= |t|
      ensures IndexOk(t) && (v !in t || v == t[i - 1]) ==>
                IndexOkBut(t[i - 1 := v], i) && (IndexOk(t[i - 1 := v]) <==> v.index == i)
    {
      var s := t[i - 1 := v];
      assert s[i - 1] == v && forall k :: 0 <= k < |t| && k != i - 1 ==> s[k] == t[k];
    }

    /**
     The position of `v`: read from the element if positions are stored, searched for otherwise; zero for
     none. With stored positions an element that has been replaced is still found where it was.
     */
    method Find(v: Item<V>) returns (i: nat)
      ensures !indexed ==> IsPosition(t, v, i)
      ensures indexed ==> i == v.index
      ensures indexed && IndexOk(t) ==> (IsPosition(t, v, i) <==> v in t || v.index == 0)
    {
      if indexed {
        i := v.index;
      } else {
        i := Scan(v);
      }
    }

    method Scan(v: Item<V>) returns (i: nat)
      ensures IsPosition(t, v, i)
    {
      for k := 0 to |t|
        invariant forall j :: 0 <= j < k ==> t[j] != v
      {
        if t[k] == v {
          return k + 1;
        }
      }
      i := 0;
    }

    /** Find the value and take out what is found. */
    method Remove(v: Item<V>) returns (found: bool, ghost at: nat)
      requires Valid() && (indexed ==> v.index <= |t|)
      modifies this`t, t`index
      ensures if indexed then at == old(v.index) else IsPosition(old(t), v, at)
      ensures found <==> at != 0
      ensures !found ==> t == old(t)
      ensures found ==> 1 <= at <= |old(t)| && multiset(t) == multiset(old(t)) - multiset{old(At(t, at))}
      ensures indexed && old(IndexOk(t)) ==> IndexOk(t)
      ensures indexed && old(IndexOk(t)) && (v in old(t) || old(v.index) == 0) ==>
                && (found <==> v in old(t)) && v !in t && v.index == 0
                && (found ==> old(At(t, at)) == v)
    {
      var i := Find(v);
      at, found := i, i != 0;
      if found {
        ghost var start := t;
        hide Ordered;
        var r := Pop(Some(i));
        DistinctMember(start, v);
        assert v in t ==> multiset(t)[v] > 0;
      }
    }

    lemma DistinctMember(t: seq<Item<V>>, v: Item<V>)
      ensures IndexOk(t) ==> multiset(t)[v] <= 1
    {
      if IndexOk(t) && v in t {
        var i :| 0 <= i < |t| && t[i] == v;
        assert t == t[..i] + [v] + t[i + 1..];
        assert v !in t[..i] && v !in t[i + 1..];
      }
    }

    /** Popping until nothing is left gives all elements, none of them less than an earlier one. */
    method Drain() returns (out: seq<Item<V>>)
      requires Valid()
      modifies this`t, t`index
      ensures t == [] && multiset(out) == multiset(old(t))
      ensures Ascending(less, out)
    {
      hide Ordered, IsOrder, IndexOk, Ascending, NotBefore;
      out := [];
      ghost var start := t;
      NothingDrained(less, t);
      while t != []
        invariant Valid() && multiset(out) + multiset(t) == multiset(start)
        invariant Ascending(less, out) && NotBefore(less, out, t)
        decreases |t|
      {
        ghost var before := t;
        MembersOfPart(t, start);
        var r := Pop(None);
        assert |multiset(t)| == |t| && |multiset(before)| == |before|;
        MembersOfPart(t, before);
        NextDrained(less, out, before, t, r.value);
        out := out + [r.value];
      }
    }
  }

  ghost predicate Ascending<V>(less: (V, V) -> bool, out: seq<Item<V>>) {
    forall i, j :: 0 <= i < j < |out| ==> !less(out[j].key, out[i].key)
  }

  ghost predicate NotBefore<V>(less: (V, V) -> bool, out: seq<Item<V>>, t: seq<Item<V>>) {
    forall i, x :: 0 <= i < |out| && x in t ==> !less(x.key, out[i].key)
  }

  lemma NothingDrained<V>(less: (V, V) -> bool, t: seq<Item<V>>)
    ensures Ascending(less, []) && NotBefore(less, [], t)
  {
  }

  lemma NextDrained<V>(less: (V, V) -> bool, out: seq<Item<V>>, before: seq<Item<V>>, t: seq<Item<V>>, x: Item<V>)
    requires Ascending(less, out) && NotBefore(less, out, before) && x in before
    requires forall y :: y in t ==> y in before && !less(y.key, x.key)
    ensures Ascending(less, out + [x]) && NotBefore(less, out + [x], t)
  {
  }

  lemma MembersOfPart<T>(a: seq<T>, b: seq<T>)
    requires multiset(a) <= multiset(b)
    ensures forall x :: x in a ==> x in b
    ensures forall k :: 0 <= k < |a| ==> a[k] in b
  {
    forall x | x in a
      ensures x in b
    {
      assert multiset(a)[x] > 0;
      assert multiset(b)[x] > 0;
    }
  }

  /** The first position of `v`, or zero. */
  predicate IsPosition<V>(t: seq<Item<V>>, v: Item<V>, i: nat) {
    if i == 0 then v !in t
    else i <= |t| && At(t, i) == v && forall k :: 0 <= k < i - 1 ==> t[k] != v
  }

  /** Popping from the middle can break the order: the last element may belong higher up. */
  lemma PopBreaksOrder(less: (int, int) -> bool, t: seq<Item<int>>)
    requires forall a, b :: less(a, b) <==> a < b
    requires |t| == 7 && forall i :: 0 <= i < 7 ==> t[i].key == [1, 10, 2, 11, 12, 3, 4][i]
    ensures Ordered(less, t) && !Ordered(less, Remaining(t, 4))
  {
    forall i | 1 < i <= 7
      ensures InOrder(less, t, i)
    {
      assert i == 2 || i == 3 || i == 4 || i == 5 || i == 6 || i == 7;
    }
    assert !InOrder(less, Remaining(t, 4), 4);
  }

  /** Does the element at `i` have to be moved? */
  predicate Moves<V>(less: (V, V) -> bool, t: seq<Item<V>>, i: nat)
    requires 1 <= i <= |t|
  {
    Rises(less, t, i) || Sinks(less, t, i)
  }

  lemma RootIsLeastOfAll<V(!new)>(less: (V, V) -> bool, t: seq<Item<V>>)
    requires IsOrder(less) && Ordered(less, t) && t != []
    ensures forall i :: 0 <= i < |t| ==> !less(t[i].key, At(t, 1).key)
  {
    forall i | 0 <= i < |t|
      ensures !less(t[i].key, At(t, 1).key)
    {
      RootIsLeast(less, t, i + 1);
    }
  }

  /** What is left when the element at `i` has changed places with the last one, and that place is gone. */
  function Remaining<V>(t: seq<V>, i: nat): seq<V>
    requires 1 <= i <= |t|
  {
    var rest := t[..|t| - 1];
    if i == |t| then rest else rest[i - 1 := t[|t| - 1]]
  }

  lemma RemainingElements<V>(t: seq<Item<V>>, i: nat)
    requires 1 <= i <= |t|
    ensures multiset(Remaining(t, i)) == multiset(t) - multiset{At(t, i)}
    ensures forall k :: 0 <= k < |Remaining(t, i)| ==> Remaining(t, i)[k] in t
  {
    assert t == t[..|t| - 1] + [t[|t| - 1]];
  }

  /** Unless the last element is less than the parent of its new place, moving it down is enough. */
  lemma RemainingOrder<V(!new)>(less: (V, V) -> bool, t: seq<Item<V>>, i: nat)
    requires IsOrder(less) && Ordered(less, t) && 1 <= i <= |t|
    ensures var s := Remaining(t, i);
            && (if i == 1 || i == |t| || !less(At(t, |t|).key, At(t, i / 2).key) then OrderedBelow(less, s, i)
                else !(i <= |s| && Sinks(less, s, i)) && !Ordered(less, s))
  {
    hide IsOrder, Ordered, OrderedBelow, OrderedAround, Rises, Sinks;
    var rest, last := t[..|t| - 1], At(t, |t|);
    WithoutLast(less, t);
    assert i < |t| ==> At(rest, i) == At(t, i) && (i > 1 ==> At(rest, i / 2) == At(t, i / 2));
    if i < |t| {
      Placed(less, rest, i, last);
      var s := rest[i - 1 := last];
      UpOrDown(less, s, i);
      RisesIs(less, s, i);
      if Rises(less, s, i) {
        HighEnough(less, s, i);
      }
    } else {
      LastIsOut(less, rest, i);
    }
  }

  lemma LastIsOut<V>(less: (V, V) -> bool, t: seq<Item<V>>, i: nat)
    requires Ordered(less, t) && i > |t|
    ensures OrderedBelow(less, t, i)
  {
  }

  /** After the element at `i` has changed places with the last one, and has gone: the last one is in its place. */
  lemma TakenOut<V>(t: seq<V>, i: nat)
    requires 1 <= i <= |t|
    ensures Exchanged(t, i, |t|)[..|t| - 1] == Remaining(t, i)
    ensures Exchanged(t, i, |t|)[|t| - 1] == t[i - 1]
  {
  }

  /** A new element at the end can only be too small for its place. */
  lemma AddedLast<V(!new)>(less: (V, V) -> bool, t: seq<Item<V>>, v: Item<V>)
    requires Ordered(less, t)
    ensures OrderedAbove(less, t + [v], |t| + 1) && multiset(t + [v]) == multiset(t) + multiset{v}
  {
    forall i | 1 < i <= |t|
      ensures InOrder(less, t + [v], i)
    {
      assert InOrder(less, t, i);
    }
  }

  lemma SinksIs<V>(less: (V, V) -> bool, t: seq<Item<V>>, i: nat)
    requires 1 <= i
    ensures i <= |t| && Sinks(less, t, i) ==> 2 * i <= |t|
  {
  }

  // ---------- Replacing ----------

  lemma FewAreOrdered(less: (int, int) -> bool, t: seq<Item<int>>)
    requires forall a, b :: less(a, b) <==> a < b
    requires |t| <= 2 && (|t| == 2 ==> t[0].key <= t[1].key && t[0] != t[1])
    requires forall i :: 0 <= i < |t| ==> t[i].index == i + 1
    ensures IsOrder(less) && Ordered(less, t) && IndexOk(t)
  {
  }

  /** A heap of integers that stores positions. */
  method Integers(keys: seq<int>) returns (h: Heap<int>)
    requires |keys| <= 2 && (|keys| == 2 ==> keys[0] <= keys[1])
    ensures fresh(h) && h.Valid() && h.indexed && IndexOk(h.t) && |h.t| == |keys|
    ensures forall a, b :: h.less(a, b) <==> a < b
    ensures forall i :: 0 <= i < |keys| ==> fresh(h.t[i]) && h.t[i].key == keys[i]
  {
    h := new Heap((x: int, y: int) => x < y, true);
    for n := 0 to |keys|
      invariant fresh(h) && h.indexed && |h.t| == n && forall a, b :: h.less(a, b) <==> a < b
      invariant forall i :: 0 <= i < n ==> fresh(h.t[i]) && h.t[i].key == keys[i] && h.t[i].index == i + 1
      invariant n == 2 ==> h.t[0] != h.t[1]
    {
      var v := new Item(keys[n]);
      h.Add(v);
    }
    FewAreOrdered(h.less, h.t);
  }

  /** The element that `replace` puts into the only place does not move, and does not learn its position. */
  method PlacedWithoutIndex() returns (h: Heap<int>, v: Item<int>)
    ensures h.Valid() && h.indexed && v in h.t && v.index == 0 && !IndexOk(h.t)
  {
    h := Integers([1]);
    v := new Item(2);
    ghost var was := h.t;
    assert !Moves(h.less, was[0 := v], 1);
    var ok := h.Replace(1, v);
    assert v in multiset(h.t);
  }

  lemma TwoLeft(t: seq<Item<int>>, was: seq<Item<int>>, v: Item<int>)
    requires |was| == 2 && multiset(t) == multiset(was) - multiset{was[0]} + multiset{v}
    ensures |t| == 2 && forall k :: 0 <= k < 2 ==> t[k] == was[1] || t[k] == v
  {
    assert was == [was[0], was[1]];
    assert multiset(t) == multiset{was[1], v};
    assert |multiset(t)| == 2;
    forall k | 0 <= k < 2
      ensures t[k] == was[1] || t[k] == v
    {
      assert t[k] in multiset(t);
    }
  }

  /** Here it moves, so that all positions are right; but the element it displaced is still found, in another's place. */
  method DisplacedIsFound() returns (h: Heap<int>, gone: Item<int>, i: nat)
    ensures h.Valid() && h.indexed && IndexOk(h.t)
    ensures gone !in h.t && gone.index == i == 1 && !IsPosition(h.t, gone, i)
    ensures |h.t| == 2 && fresh(h) && fresh(h.t)
  {
    h := Integers([1, 3]);
    gone := h.t[0];
    var v := new Item(5);
    ghost var was := h.t;
    assert Sinks(h.less, was[0 := v], 1);
    var ok := h.Replace(1, v);
    TwoLeft(h.t, was, v);
    i := h.Find(gone);
  }

  /** To remove it takes out that other one. */
  method DisplacedIsRemoved() returns (h: Heap<int>, gone: Item<int>, found: bool)
    ensures found && |h.t| == 1
  {
    var i;
    h, gone, i := DisplacedIsFound();
    ghost var was := h.t;
    ghost var at;
    found, at := h.Remove(gone);
    assert |multiset(h.t)| == |multiset(was)| - 1;
  }
}
