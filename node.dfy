/**
 * The node of an ordered, keyed N-ary tree (src/Node.php). A node has an
 * immutable key, an opaque value, links to its parent and to its previous and
 * next sibling, a link to its first child, and a child index: a PHP array from
 * key to child whose last entry serves as the last child.
 *
 * The two views of the children, the doubly linked sibling chain and the
 * index, are kept in step only by the mutators themselves. The methods below
 * do what the PHP code does on every input, including inputs that break that
 * agreement, and state their effect field by field. What they preserve when
 * the agreement holds is stated by two-state lemmas beside them, against the
 * ghost sequence `chain` (the children in sibling order) and the predicates
 * Linked, Indexed and Valid.
 */
module NodeTree {
  import opened PhpArray

  /** Outcome of a mutator: done, or the invalid-operation failure with its message. */
  datatype Status = Done | InvalidOperation(message: string)

  const AddFailure := "Cannot add node: node already added."
  const InsertFailure := "Cannot insert node: $before not a member of this node."
  const RemoveFailure := "Cannot remove node: not a member of this node."
  /** Failure of the corrected insertion when the inserted node is already a member. */
  const InsertDuplicateFailure := "Cannot insert node: node already added."

  /** A possibly-null node as a set of at most one node, for frames. */
  function Just<V>(n: Node?<V>): set<Node<V>>
  {
    if n == null then {} else {n}
  }

  /** The last element of `s`, or null. */
  ghost function Tail<V>(s: seq<Node<V>>): Node?<V>
  {
    if s == [] then null else s[|s| - 1]
  }

  /** Where `x` first occurs in `s`, or |s| if it does not. */
  ghost function Find<V>(s: seq<Node<V>>, x: Node<V>): (i: nat)
    ensures i <= |s|
    ensures i < |s| ==> s[i] == x
    ensures forall j :: 0 <= j < i ==> s[j] != x
  {
    if s == [] then 0 else if s[0] == x then 0 else 1 + Find(s[1..], x)
  }

  /** `s` without its element at index i (unchanged if there is none). */
  ghost function Delete<V>(s: seq<Node<V>>, i: nat): seq<Node<V>>
  {
    if i < |s| then s[..i] + s[i + 1..] else s
  }

  /** The element at index i after splicing `x` in at index k. */
  lemma SpliceIndex<V>(s: seq<Node<V>>, k: nat, x: Node<V>)
    requires k <= |s|
    ensures |Splice(s, k, x)| == |s| + 1
    ensures forall i {:trigger Splice(s, k, x)[i]} :: 0 <= i <= |s| ==>
      Splice(s, k, x)[i] == if i < k then s[i] else if i == k then x else s[i - 1]
  {
  }

  /** The element at index i after deleting index k. */
  lemma DeleteIndex<V>(s: seq<Node<V>>, k: nat)
    requires k < |s|
    ensures |Delete(s, k)| == |s| - 1
    ensures forall i {:trigger Delete(s, k)[i]} :: 0 <= i < |s| - 1 ==> Delete(s, k)[i] == if i < k then s[i] else s[i + 1]
  {
  }

  /** `s` with `x` placed in front of its element at index i. */
  ghost function Splice<V>(s: seq<Node<V>>, i: nat, x: Node<V>): seq<Node<V>>
    requires i <= |s|
  {
    s[..i] + [x] + s[i..]
  }

  /** The index holds the nodes of `chain`, each under its own key, in chain order. */
  ghost predicate IndexOf<V>(children: OrderedArray<Node<V>>, chain: seq<Node<V>>)
  {
    |children| == |chain| &&
    forall i :: 0 <= i < |chain| ==> children[i] == (chain[i].key, chain[i])
  }

  /** A sequence that an index holds in this way has no node twice. */
  lemma IndexOfDistinct<V>(children: OrderedArray<Node<V>>, chain: seq<Node<V>>, k: nat)
    requires IndexOf(children, chain) && k < |chain|
    ensures forall i :: 0 <= i < |chain| && i != k ==> chain[i] != chain[k]
  {
    forall i | 0 <= i < |chain| && i != k ensures chain[i] != chain[k] {
      if i < k {
        assert KeyAt(children, i) != KeyAt(children, k);
      } else {
        assert KeyAt(children, k) != KeyAt(children, i);
      }
    }
  }

  /**
   * `w` is the walk that starts at `first` and follows `next` links until one
   * is null.
   */
  ghost predicate IsWalk<V>(first: Node?<V>, w: seq<Node<V>>)
    reads w
  {
    first == (if w == [] then null else w[0]) &&
    (w != [] ==> w[|w| - 1].next == null) &&
    (forall i {:trigger w[i].next} :: 0 <= i < |w| - 1 ==> w[i].next == w[i + 1])
  }

  /** No node occurs twice in `s`. */
  ghost predicate NoRepeats<V>(s: seq<Node<V>>)
  {
    forall i, j :: 0 <= i < j < |s| ==> s[i] != s[j]
  }

  /** In a sequence without repeats, the node at position k occurs nowhere else. */
  lemma RepeatFreeAt<V>(s: seq<Node<V>>, k: nat)
    requires NoRepeats(s) && k < |s|
    ensures forall i :: 0 <= i < |s| && i != k ==> s[i] != s[k]
  {
  }

  /** Splicing an element in anywhere gives the same multiset as putting it first. */
  lemma SpliceMultiset<V>(s: seq<Node<V>>, k: nat, x: Node<V>)
    requires k <= |s|
    ensures multiset(Splice(s, k, x)) == multiset([x] + s)
  {
    assert s == s[..k] + s[k..];
    assert multiset(Splice(s, k, x)) == multiset(s[..k]) + multiset([x]) + multiset(s[k..]);
  }

  /**
   * After `array_unshift` of a node onto the index of a chain, the index holds
   * exactly the nodes of the chain with that node spliced in, wherever it went.
   */
  lemma UnshiftHoldsSplice<V>(children: OrderedArray<Node<V>>, c: seq<Node<V>>, k: nat, node: Node<V>)
    requires IndexOf(children, c) && k <= |c|
    ensures multiset(Values(Unshift(children, node))) == multiset(Splice(c, k, node))
  {
    assert Values(children) == c;
    UnshiftValues(children, node);
    SpliceMultiset(c, k, node);
  }

  /**
   * The corrected insertion keeps the index in step with the chain: `before`
   * sits at the same place in both, and both gain `node` in front of it.
   */
  lemma InsertAtKeepsIndex<V>(children: OrderedArray<Node<V>>, c: seq<Node<V>>, before: Node<V>, node: Node<V>)
    requires IndexOf(children, c) && Lookup(children, before.key) == Some(before)
    requires !HasKey(children, node.key)
    ensures before in c && Find(c, before) == Position(children, before.key)
    ensures IndexOf(InsertAt(children, Position(children, before.key), node.key, node), Splice(c, Find(c, before), node))
  {
    var p := Position(children, before.key);
    assert children[p] == (c[p].key, c[p]);
    IndexOfDistinct(children, c, p);
    assert Find(c, before) == p;
    var r := InsertAt(children, p, node.key, node);
    var d := Splice(c, p, node);
    forall i | 0 <= i < |d| ensures r[i] == (d[i].key, d[i]) {
      if i < p {
        assert r[i] == children[i] && d[i] == c[i];
      } else if i > p {
        assert r[i] == children[i - 1] && d[i] == c[i - 1];
      }
    }
  }

  /** `unset` of a child's key keeps the index in step: both lose that child at the same place. */
  lemma UnsetKeepsIndex<V>(children: OrderedArray<Node<V>>, c: seq<Node<V>>, node: Node<V>)
    requires IndexOf(children, c) && node in c
    ensures IndexOf(Unset(children, node.key), Delete(c, Find(c, node)))
  {
    var k := Find(c, node);
    UnsetAt(children, k);
    var r := children[..k] + children[k + 1..];
    forall i | 0 <= i < |c| - 1 ensures r[i] == (Delete(c, k)[i].key, Delete(c, k)[i]) {
      if i < k {
        assert r[i] == children[i];
      } else {
        assert r[i] == children[i + 1];
      }
    }
  }

  /** Appending a node to a chain and its entry to the index keeps the one the index of the other. */
  lemma IndexOfAppend<V>(children: OrderedArray<Node<V>>, c: seq<Node<V>>, appended: OrderedArray<Node<V>>, node: Node<V>)
    requires IndexOf(children, c) && appended == children + [(node.key, node)]
    ensures IndexOf(appended, c + [node])
  {
  }

  /** Deleting the node just appended to a chain that lacked it gives the chain back. */
  lemma DeleteAppended<V>(c: seq<Node<V>>, x: Node<V>)
    requires x !in c
    ensures Find(c + [x], x) == |c| && Delete(c + [x], |c|) == c
  {
    assert (c + [x])[|c|] == x;
    assert (c + [x])[..|c|] == c;
  }

  class Node<V> {
    const key: Key
    const value: V
    var next: Node?<V>
    var previous: Node?<V>
    var parent: Node?<V>
    var firstChild: Node?<V>
    /** The child index: a PHP array from key to child. */
    var children: OrderedArray<Node<V>>
    /** The children in sibling order, as the chain of `next` links should give them. */
    ghost var chain: seq<Node<V>>

    /**
     * The sibling chain is `chain`: it starts at firstChild, every child has
     * this node as parent, and `previous`/`next` link each child to its
     * neighbours in `chain` (null at the ends).
     */
    ghost predicate Linked()
      reads this, chain
    {
      this !in chain &&
      firstChild == (if chain == [] then null else chain[0]) &&
      (forall i :: 0 <= i < |chain| ==> chain[i].parent == this) &&
      (chain != [] ==> chain[0].previous == null && chain[|chain| - 1].next == null) &&
      (forall i {:trigger chain[i].next} :: 0 <= i < |chain| - 1 ==> chain[i].next == chain[i + 1]) &&
      (forall i {:trigger chain[i].previous} :: 0 < i < |chain| ==> chain[i].previous == chain[i - 1])
    }

    /** The index holds every child under its own key, in sibling order. */
    ghost predicate Indexed()
      reads this
    {
      IndexOf(children, chain)
    }

    /** Chain and index agree: the state that `add` and `remove` preserve. */
    ghost predicate Valid()
      reads this, chain
    {
      Linked() && Indexed()
    }

    /**
     * A well-linked chain never repeats a node: a repeat would make the chain
     * run on past its last element, whose `next` is null.
     */
    lemma {:induction false} LinkedDistinct(i: nat, j: nat)
      requires Linked() && i < j < |chain|
      ensures chain[i] != chain[j]
      decreases |chain| - j
    {
      if chain[i] == chain[j] {
        assert chain[i].next == chain[i + 1];
        if j < |chain| - 1 {
          assert chain[j].next == chain[j + 1];
          LinkedDistinct(i + 1, j + 1);
        }
      }
    }

    /** All of the chain at once: a well-linked chain has no repeats. */
    lemma LinkedNoRepeats()
      requires Linked()
      ensures NoRepeats(chain)
    {
      forall i, j | 0 <= i < j < |chain| ensures chain[i] != chain[j] {
        LinkedDistinct(i, j);
      }
    }

    /** The walk along `next` from firstChild of a well-linked node is its chain. */
    lemma LinkedWalk()
      requires Linked()
      ensures IsWalk(firstChild, chain)
    {
    }

    /** A new node: the key normalised, no parent, no siblings, no children. */
    constructor (k: RawKey, v: V)
      ensures key == Normalize(k) && value == v
      ensures next == null && previous == null && parent == null && firstChild == null
      ensures children == [] && chain == []
      ensures Valid()
    {
      key := Normalize(k);
      value := v;
      next, previous, parent, firstChild := null, null, null, null;
      children := [];
      chain := [];
    }

    /**
     * `has`: membership is by key. A child always reads as present; so does
     * any other node that shares a child's key.
     */
    function Has(node: Node<V>): (r: bool)
      reads this
      ensures Indexed() ==> (r <==> exists i :: 0 <= i < |chain| && chain[i].key == node.key)
      ensures Indexed() && node in chain ==> r
    {
      HasKey(children, node.key)
    }

    /** `count`: the number of index entries. */
    function Count(): (n: nat)
      reads this
      ensures Indexed() ==> n == |chain|
    {
      PhpArray.Count(children)
    }

    /** `getLastChild`: the last entry of the index, which is the chain's tail only while they agree. */
    function LastChild(): (r: Node?<V>)
      reads this
      ensures r == null <==> children == []
      ensures Indexed() ==> r == Tail(chain)
    {
      match End(children)
      case None => null
      case Some(n) => n
    }

    /** `offsetExists`: the same test as `has`. */
    function OffsetExists(offset: Node<V>): (r: bool)
      reads this
      ensures r == Has(offset)
    {
      Has(offset)
    }

    /**
     * `offsetGet`: the child stored under the offset's key (PHP: null after an
     * undefined-index notice when there is none). It need not be the offset itself.
     */
    function OffsetGet(offset: Node<V>): (r: Node?<V>)
      reads this
      ensures r != null <==> Has(offset)
      ensures Indexed() && offset in chain ==> r == offset
      ensures Indexed() && r != null ==> r in chain && r.key == offset.key
    {
      match Lookup(children, offset.key)
      case None => null
      case Some(n) =>
        assert Indexed() ==> n in chain by {
          if Indexed() {
            var i := Position(children, offset.key);
            assert children[i] == (chain[i].key, chain[i]);
          }
        }
        n
    }

    /**
     * `getIterator`: the nodes from firstChild along the `next` links, up to
     * the first null. `walk` names that finite walk; on a well-linked node it
     * is the chain (`LinkedWalk`).
     */
    method Iterate(ghost walk: seq<Node<V>>) returns (s: seq<Node<V>>)
      requires IsWalk(firstChild, walk)
      ensures s == walk
    {
      s := [];
      var n := firstChild;
      ghost var i := 0;
      while n != null
        invariant 0 <= i <= |walk|
        invariant s == walk[..i]
        invariant n == if i < |walk| then walk[i] else null
        decreases |walk| - i
      {
        s := s + [n];
        n := n.next;
        i := i + 1;
      }
    }

    /**
     * Links `node` into the sibling chain between `previous` and `next`, as a
     * child of this node: the pointer updates that `add` and `insert` share,
     * in their order, so that under aliasing the later store wins as it does
     * there.
     */
    method Attach(node: Node<V>, previous: Node?<V>, next: Node?<V>)
      modifies this`firstChild, Just(previous)`next, Just(next)`previous
      modifies node`previous, node`next, node`parent
      ensures node.previous == previous && node.next == next && node.parent == this
      ensures previous != null && previous != node ==> previous.next == node
      ensures next != null && next != node ==> next.previous == node
      ensures firstChild == if previous == null then node else old(firstChild)
    {
      if previous != null {
        previous.next := node;
      } else {
        firstChild := node;
      }
      if next != null {
        next.previous := node;
      }
      node.previous := previous;
      node.next := next;
      node.parent := this;
    }

    /**
     * Unlinks `node` from its siblings, which then link to each other, and
     * clears its links: the pointer updates of `remove`, in its order.
     */
    method Detach(node: Node<V>)
      modifies this`firstChild, Just(node.next)`previous, Just(node.previous)`next
      modifies node`previous, node`next, node`parent
      ensures node.previous == null && node.next == null && node.parent == null
      ensures old(node.next) != null && old(node.next) != node ==> old(node.next).previous == old(node.previous)
      ensures old(node.previous) != null && old(node.previous) != node ==> old(node.previous).next == old(node.next)
      ensures firstChild == if old(node.previous) == null then old(node.next) else old(firstChild)
    {
      var next := node.next;
      if next != null {
        next.previous := node.previous;
      }
      var previous := node.previous;
      if previous != null {
        previous.next := next;
      } else {
        firstChild := next;
      }
      node.previous := null;
      node.next := null;
      node.parent := null;
    }

    /**
     * `add`: appends `node` after the index's last entry and files it under
     * its own key. Fails, changing nothing, when its key is already present.
     */
    method Add(node: Node<V>) returns (s: Status)
      modifies this`firstChild, this`children, this`chain
      modifies node`previous, node`next, node`parent
      modifies Just(LastChild())`next
      ensures s == if old(Has(node)) then InvalidOperation(AddFailure) else Done
      ensures s.InvalidOperation? ==> unchanged(this, node) && unchanged(Just(old(LastChild())))
      ensures s.Done? ==> node.previous == old(LastChild()) && node.next == null && node.parent == this
      ensures s.Done? && old(LastChild()) != null && old(LastChild()) != node ==> old(LastChild()).next == node
      ensures s.Done? ==> firstChild == if old(LastChild()) == null then node else old(firstChild)
      ensures s.Done? ==> children == old(children) + [(node.key, node)] && Count() == old(Count()) + 1
      ensures s.Done? ==> chain == old(chain) + [node]
    {
      if Has(node) {
        return InvalidOperation(AddFailure);
      }
      Attach(node, LastChild(), null);
      children := Assign(children, node.key, node);
      chain := chain + [node];
      s := Done;
    }

    /** After `add`, each child's `next` is its successor in the lengthened chain. */
    twostate lemma AddKeepsNextLinks(node: Node<V>)
      requires old(Valid()) && !old(Has(node))
      requires node.next == null
      requires old(LastChild()) != null && old(LastChild()) != node ==> old(LastChild()).next == node
      requires chain == old(chain) + [node]
      requires forall n: Node<V> | old(allocated(n)) && n != node && n != old(LastChild()) ::
        n.next == old(n.next)
      ensures forall i {:trigger chain[i].next} :: 0 <= i < |chain| - 1 ==> chain[i].next == chain[i + 1]
      ensures chain[|chain| - 1].next == null
    {
      ghost var c := old(chain);
      assert node !in c;
      if c != [] {
        IndexOfDistinct(old(children), c, |c| - 1);
      }
      forall i | 0 <= i < |c| - 1 ensures chain[i].next == chain[i + 1] {
        assert chain[i] == c[i] && chain[i + 1] == c[i + 1];
      }
    }

    /** After `add`, each child's `previous` is its predecessor in the lengthened chain. */
    twostate lemma AddKeepsPreviousLinks(node: Node<V>)
      requires old(Valid()) && !old(Has(node))
      requires node.previous == old(LastChild())
      requires chain == old(chain) + [node]
      requires forall n: Node<V> | old(allocated(n)) && n != node :: n.previous == old(n.previous)
      ensures forall i {:trigger chain[i].previous} :: 0 < i < |chain| ==> chain[i].previous == chain[i - 1]
      ensures chain[0].previous == null
    {
      ghost var c := old(chain);
      assert node !in c;
      forall i | 0 < i < |c| ensures chain[i].previous == chain[i - 1] {
        assert chain[i] == c[i] && chain[i - 1] == c[i - 1];
      }
    }

    /**
     * `add` on a valid node keeps it valid: a change with exactly the effect
     * of a successful `add`, touching no other node, appends `node` to both
     * the chain and the index.
     */
    twostate lemma AddKeepsValid(node: Node<V>)
      requires old(Valid()) && !old(Has(node)) && node != this
      requires node.previous == old(LastChild()) && node.next == null && node.parent == this
      requires old(LastChild()) != null && old(LastChild()) != node ==> old(LastChild()).next == node
      requires firstChild == if old(LastChild()) == null then node else old(firstChild)
      requires children == old(children) + [(node.key, node)]
      requires chain == old(chain) + [node]
      requires forall n: Node<V> | old(allocated(n)) && n != node ::
        n.previous == old(n.previous) && n.parent == old(n.parent)
      requires forall n: Node<V> | old(allocated(n)) && n != node && n != old(LastChild()) ::
        n.next == old(n.next)
      ensures Valid()
    {
      AddKeepsNextLinks(node);
      AddKeepsPreviousLinks(node);
      ghost var c := old(chain);
      assert node !in c;
      IndexOfAppend(old(children), c, children, node);
      forall i | 0 <= i < |c| ensures chain[i] == c[i] && c[i].parent == this {
      }
    }

    /**
     * `insert`: links `node` into the chain in front of `before`, which must
     * be a member (by key). The index gains `node` by `array_unshift`: as its
     * first entry, under integer key 0, with the other integer keys
     * renumbered. Whether `node` is already a member is not checked.
     */
    method Insert(before: Node<V>, node: Node<V>) returns (s: Status)
      modifies this`firstChild, this`children, this`chain
      modifies before`previous, node`previous, node`next, node`parent
      modifies Just(before.previous)`next
      ensures s == if old(Has(before)) then Done else InvalidOperation(InsertFailure)
      ensures s.InvalidOperation? ==> unchanged(this, before, node) && unchanged(Just(old(before.previous)))
      ensures s.Done? ==> node.previous == old(before.previous) && node.next == before && node.parent == this
      ensures s.Done? && before != node ==> before.previous == node
      ensures s.Done? && old(before.previous) != null && old(before.previous) != node ==> old(before.previous).next == node
      ensures s.Done? ==> firstChild == if old(before.previous) == null then node else old(firstChild)
      ensures s.Done? ==> children == Unshift(old(children), node) && |children| == |old(children)| + 1
      ensures s.Done? ==> chain == if before in old(chain) then Splice(old(chain), Find(old(chain), before), node) else old(chain)
    {
      if !Has(before) {
        return InvalidOperation(InsertFailure);
      }
      // The index is updated before the links rather than after: the two touch
      // disjoint fields, so the outcome is the same.
      children := Unshift(children, node);
      chain := if before in chain then Splice(chain, Find(chain, before), node) else chain;
      Attach(node, before.previous, before);
      s := Done;
    }

    /**
     * `insert` in front of the child at position k of the chain keeps the
     * chain well linked: the new node, now at position k, sits in front of
     * that child (`old(chain[k])`). The index still holds exactly the
     * chain's nodes, though no longer each under its own key nor in chain
     * order. (The lemma takes only the position; the new node is `chain[k]`.)
     */
    twostate lemma InsertKeepsLinked(k: nat)
      requires old(Linked()) && NoRepeats(old(chain)) && k < old(|chain|) && k < |chain|
      requires chain == Splice(old(chain), k, chain[k]) && chain[k] !in old(chain) && chain[k] != this
      requires chain[k].previous == old(chain[k].previous) && chain[k].next == old(chain[k])
      requires chain[k].parent == this && old(chain[k]).previous == chain[k]
      requires old(chain[k].previous) != null ==> old(chain[k].previous).next == chain[k]
      requires firstChild == if old(chain[k].previous) == null then chain[k] else old(firstChild)
      requires forall n: Node<V> | old(allocated(n)) && n != chain[k] && n != old(chain[k]) ::
        n.previous == old(n.previous)
      requires forall n: Node<V> | old(allocated(n)) && n != chain[k] ::
        n.parent == old(n.parent)
      requires forall n: Node<V> | old(allocated(n)) && n != chain[k] && n != old(chain[k].previous) ::
        n.next == old(n.next)
      ensures Linked()
    {
      ghost var c := old(chain);
      RepeatFreeAt(c, k);
      if k > 0 {
        RepeatFreeAt(c, k - 1);
      }
      ghost var node := chain[k];
      SpliceIndex(c, k, node);
      forall i | 0 <= i < |chain| - 1 ensures chain[i].next == chain[i + 1] {
        if i + 1 < k {
          assert c[i].next == old(c[i].next) == c[i + 1];
        } else if i > k {
          assert c[i - 1].next == old(c[i - 1].next) == c[i];
        }
      }
      forall i | 0 < i < |chain| ensures chain[i].previous == chain[i - 1] {
        if i < k {
          assert c[i].previous == old(c[i].previous) == c[i - 1];
        } else if i > k + 1 {
          assert c[i - 1].previous == old(c[i - 1].previous) == c[i - 2];
        }
      }
    }

    /**
     * The insertion `insert` evidently intends: it checks that `before` is
     * itself the child filed under its key and that `node` is not yet a
     * member, then files `node` under its own key at `before`'s place in the
     * index, so that index order stays sibling order.
     */
    method InsertKeyed(before: Node<V>, node: Node<V>) returns (s: Status)
      modifies this`firstChild, this`children, this`chain
      modifies before`previous, node`previous, node`next, node`parent
      modifies Just(before.previous)`next
      ensures s == if Lookup(old(children), before.key) != Some(before) then InvalidOperation(InsertFailure)
        else if old(Has(node)) then InvalidOperation(InsertDuplicateFailure) else Done
      ensures s.InvalidOperation? ==> unchanged(this, before, node) && unchanged(Just(old(before.previous)))
      ensures s.Done? ==> node.previous == old(before.previous) && node.next == before && node.parent == this
      ensures s.Done? ==> before.previous == node
      ensures s.Done? && old(before.previous) != null && old(before.previous) != node ==> old(before.previous).next == node
      ensures s.Done? ==> firstChild == if old(before.previous) == null then node else old(firstChild)
      ensures s.Done? ==> !old(HasKey(children, node.key)) && Position(old(children), before.key) <= |old(children)|
      ensures s.Done? ==> children == InsertAt(old(children), Position(old(children), before.key), node.key, node)
      ensures s.Done? ==> Count() == old(Count()) + 1
      ensures s.Done? ==> chain == if before in old(chain) then Splice(old(chain), Find(old(chain), before), node) else old(chain)
    {
      if Lookup(children, before.key) != Some(before) {
        return InvalidOperation(InsertFailure);
      }
      if Has(node) {
        return InvalidOperation(InsertDuplicateFailure);
      }
      Attach(node, before.previous, before);
      InsertAtLength(children, Position(children, before.key), node.key, node);
      children := InsertAt(children, Position(children, before.key), node.key, node);
      chain := if before in chain then Splice(chain, Find(chain, before), node) else chain;
      s := Done;
    }

    /**
     * `remove`: unlinks `node` from its siblings and drops its key from the
     * index; `node` keeps no links. Fails, changing nothing, when its key is
     * absent. A non-member that shares a member's key is "removed" too.
     */
    method Remove(node: Node<V>) returns (s: Status)
      modifies this`firstChild, this`children, this`chain
      modifies node`previous, node`next, node`parent
      modifies Just(node.next)`previous, Just(node.previous)`next
      ensures s == if old(Has(node)) then Done else InvalidOperation(RemoveFailure)
      ensures s.InvalidOperation? ==> unchanged(this, node) && unchanged(Just(old(node.next)), Just(old(node.previous)))
      ensures s.Done? ==> node.previous == null && node.next == null && node.parent == null
      ensures node != this ==> node.firstChild == old(node.firstChild) && node.children == old(node.children)
      ensures s.Done? && old(node.next) != null && old(node.next) != node ==> old(node.next).previous == old(node.previous)
      ensures s.Done? && old(node.previous) != null && old(node.previous) != node ==> old(node.previous).next == old(node.next)
      ensures s.Done? ==> firstChild == if old(node.previous) == null then old(node.next) else old(firstChild)
      ensures s.Done? ==> children == Unset(old(children), node.key) && Count() == old(Count()) - 1
      ensures s.Done? ==> chain == Delete(old(chain), Find(old(chain), node))
    {
      if !Has(node) {
        return InvalidOperation(RemoveFailure);
      }
      Detach(node);
      children := Unset(children, node.key);
      chain := Delete(chain, Find(chain, node));
      s := Done;
    }

    /** After `remove` of a child, each remaining child's `next` is its successor in the shortened chain. */
    twostate lemma RemoveKeepsNextLinks(node: Node<V>)
      requires old(Linked()) && NoRepeats(old(chain)) && node in old(chain)
      requires old(node.previous) != null && old(node.previous) != node ==> old(node.previous).next == old(node.next)
      requires chain == Delete(old(chain), Find(old(chain), node))
      requires forall n: Node<V> | old(allocated(n)) && n != node && n != old(node.previous) ::
        n.next == old(n.next)
      ensures forall i {:trigger chain[i].next} :: 0 <= i < |chain| - 1 ==> chain[i].next == chain[i + 1]
      ensures chain != [] ==> chain[|chain| - 1].next == null
    {
      ghost var c := old(chain);
      ghost var k := Find(c, node);
      RepeatFreeAt(c, k);
      if k > 0 {
        RepeatFreeAt(c, k - 1);
      }
      assert old(node.previous) == if k > 0 then c[k - 1] else null;
      assert old(node.next) == if k < |c| - 1 then c[k + 1] else null;
      DeleteIndex(c, k);
      forall i | 0 <= i < |chain| - 1 ensures chain[i].next == chain[i + 1] {
        if i + 1 < k {
          assert c[i].next == old(c[i].next) == c[i + 1];
        } else if i >= k {
          assert c[i + 1].next == old(c[i + 1].next) == c[i + 2];
        }
      }
    }

    /** After `remove` of a child, each remaining child's `previous` is its predecessor in the shortened chain. */
    twostate lemma RemoveKeepsPreviousLinks(node: Node<V>)
      requires old(Linked()) && NoRepeats(old(chain)) && node in old(chain)
      requires old(node.next) != null && old(node.next) != node ==> old(node.next).previous == old(node.previous)
      requires chain == Delete(old(chain), Find(old(chain), node))
      requires forall n: Node<V> | old(allocated(n)) && n != node && n != old(node.next) ::
        n.previous == old(n.previous)
      ensures forall i {:trigger chain[i].previous} :: 0 < i < |chain| ==> chain[i].previous == chain[i - 1]
      ensures chain != [] ==> chain[0].previous == null
    {
      ghost var c := old(chain);
      ghost var k := Find(c, node);
      RepeatFreeAt(c, k);
      if k < |c| - 1 {
        RepeatFreeAt(c, k + 1);
      }
      assert old(node.previous) == if k > 0 then c[k - 1] else null;
      assert old(node.next) == if k < |c| - 1 then c[k + 1] else null;
      DeleteIndex(c, k);
      forall i | 0 < i < |chain| ensures chain[i].previous == chain[i - 1] {
        if i < k {
          assert c[i].previous == old(c[i].previous) == c[i - 1];
        } else if i > k {
          assert c[i + 1].previous == old(c[i + 1].previous) == c[i];
        }
      }
    }

    /** `remove` of a child keeps the chain well linked: its neighbours now link to each other. */
    twostate lemma RemoveKeepsLinked(node: Node<V>)
      requires old(Linked()) && NoRepeats(old(chain)) && node in old(chain)
      requires old(node.next) != null && old(node.next) != node ==> old(node.next).previous == old(node.previous)
      requires old(node.previous) != null && old(node.previous) != node ==> old(node.previous).next == old(node.next)
      requires firstChild == if old(node.previous) == null then old(node.next) else old(firstChild)
      requires chain == Delete(old(chain), Find(old(chain), node))
      requires forall n: Node<V> | old(allocated(n)) && n != node && n != old(node.next) ::
        n.previous == old(n.previous)
      requires forall n: Node<V> | old(allocated(n)) && n != node ::
        n.parent == old(n.parent)
      requires forall n: Node<V> | old(allocated(n)) && n != node && n != old(node.previous) ::
        n.next == old(n.next)
      ensures Linked()
    {
      RemoveKeepsNextLinks(node);
      RemoveKeepsPreviousLinks(node);
      ghost var c := old(chain);
      ghost var k := Find(c, node);
      RepeatFreeAt(c, k);
      DeleteIndex(c, k);
      assert old(node.next) == if k < |c| - 1 then c[k + 1] else null;
    }

    /** `offsetSet`: the offset is ignored; the value is added as by `add`. */
    method OffsetSet<O>(offset: O, value: Node<V>) returns (s: Status)
      modifies this`firstChild, this`children, this`chain
      modifies value`previous, value`next, value`parent
      modifies Just(LastChild())`next
      ensures s == if old(Has(value)) then InvalidOperation(AddFailure) else Done
      ensures s.InvalidOperation? ==> unchanged(this, value) && unchanged(Just(old(LastChild())))
      ensures s.Done? ==> value.previous == old(LastChild()) && value.next == null && value.parent == this
      ensures s.Done? && old(LastChild()) != null && old(LastChild()) != value ==> old(LastChild()).next == value
      ensures s.Done? ==> firstChild == if old(LastChild()) == null then value else old(firstChild)
      ensures s.Done? ==> children == old(children) + [(value.key, value)] && Count() == old(Count()) + 1
      ensures s.Done? ==> chain == old(chain) + [value]
    {
      s := Add(value);
    }

    /** `offsetUnset`: removes the offset node as by `remove`. */
    method OffsetUnset(offset: Node<V>) returns (s: Status)
      modifies this`firstChild, this`children, this`chain
      modifies offset`previous, offset`next, offset`parent
      modifies Just(offset.next)`previous, Just(offset.previous)`next
      ensures s == if old(Has(offset)) then Done else InvalidOperation(RemoveFailure)
      ensures s.InvalidOperation? ==> unchanged(this, offset) && unchanged(Just(old(offset.next)), Just(old(offset.previous)))
      ensures s.Done? ==> offset.previous == null && offset.next == null && offset.parent == null
      ensures offset != this ==> offset.firstChild == old(offset.firstChild) && offset.children == old(offset.children)
      ensures s.Done? && old(offset.next) != null && old(offset.next) != offset ==> old(offset.next).previous == old(offset.previous)
      ensures s.Done? && old(offset.previous) != null && old(offset.previous) != offset ==> old(offset.previous).next == old(offset.next)
      ensures s.Done? ==> firstChild == if old(offset.previous) == null then old(offset.next) else old(firstChild)
      ensures s.Done? ==> children == Unset(old(children), offset.key) && Count() == old(Count()) - 1
      ensures s.Done? ==> chain == Delete(old(chain), Find(old(chain), offset))
    {
      s := Remove(offset);
    }
  }
}
