/**
 * Scenarios for the node class: the unit tests of test/NodeTest.php, the
 * documented behaviour of `insert` and `remove`, and the inputs that show
 * where `insert` breaks the agreement between sibling chain and index.
 */
module NodeScenarios {
  import opened PhpArray
  import opened NodeTree

  /** A fresh node has its key and value, no links and no children; iteration yields nothing. */
  method InitialState() returns (n: Node<string>, walk: seq<Node<string>>)
    ensures n.key == StrKey("foo") && n.value == "bar"
    ensures n.next == null && n.previous == null && n.parent == null
    ensures n.firstChild == null && n.LastChild() == null
    ensures walk == [] && n.Count() == 0
  {
    n := new Node<string>(RawString("foo"), "bar");
    walk := n.Iterate([]);
  }

  /** The first add: the child is both first and last child, with no siblings. */
  method AddFirstChild() returns (root: Node<string>, a: Node<string>)
    ensures fresh(root) && fresh(a) && a.key == StrKey("a")
    ensures root.Valid() && root.chain == [a] && root.parent == null && a != root
    ensures root.firstChild == a && root.LastChild() == a && root.Count() == 1
    ensures a.previous == null && a.next == null && a.parent == root && a.Count() == 0
    ensures root.next == null && root.previous == null
  {
    root := new Node<string>(RawString("foo"), "bar");
    a := new Node<string>(RawString("a"), "a");
    label Empty:
    var s := root.Add(a);
    root.AddKeepsValid@Empty(a);
  }

  /** The second add links the new child after the first; iteration yields both in order. */
  method AddSecondChild(root: Node<string>, a: Node<string>, b: Node<string>) returns (walk: seq<Node<string>>)
    requires root.Valid() && root.chain == [a] && root.parent == null
    requires b != root && b.key != a.key
    modifies root, a, b
    ensures root.Valid() && root.chain == [a, b] && root.parent == null
    ensures root.firstChild == a && root.LastChild() == b && root.Count() == 2
    ensures a.previous == null && a.next == b && a.parent == root
    ensures b.previous == a && b.next == null && b.parent == root
    ensures walk == [a, b]
  {
    label One:
    var s := root.Add(b);
    root.AddKeepsValid@One(b);
    root.LinkedWalk();
    walk := root.Iterate(root.chain);
  }

  /** Adding the same node twice fails the second time and leaves the count alone. */
  method AddDuplicateFails() returns (root: Node<int>, s: Status, t: Status)
    ensures s == Done && t == InvalidOperation(AddFailure) && root.Count() == 1
  {
    root := new Node<int>(RawString("foo"), 0);
    var a := new Node<int>(RawInt(7), 1);
    s := root.Add(a);
    t := root.Add(a);
  }

  /** `add` on a valid node under a new key keeps it valid and appends the node to the chain and the index. */
  method ValidAdd<V>(root: Node<V>, x: Node<V>) returns (s: Status)
    requires root.Valid() && !root.Has(x) && x != root
    modifies root, x, root.chain
    ensures s == Done && root.Valid()
    ensures root.chain == old(root.chain) + [x] && root.children == Assign(old(root.children), x.key, x)
  {
    s := root.Add(x);
    root.AddKeepsValid(x);
  }

  /** `remove` of a child of a valid node keeps it valid and deletes the child from the chain and the index. */
  method ValidRemove<V>(root: Node<V>, x: Node<V>) returns (t: Status)
    requires root.Valid() && x in root.chain
    modifies root, x, root.chain
    ensures t == Done && root.Valid()
    ensures root.chain == Delete(old(root.chain), Find(old(root.chain), x))
    ensures root.children == Unset(old(root.children), x.key)
  {
    root.LinkedNoRepeats();
    t := root.Remove(x);
    root.RemoveKeepsLinked(x);
    UnsetKeepsIndex(old(root.children), old(root.chain), x);
  }

  /**
   * `insert` in front of a child, on a node that is only well linked (as after
   * an earlier `insert`), keeps it well linked with the node spliced in.
   */
  method LinkedInsert<V>(root: Node<V>, before: Node<V>, node: Node<V>) returns (s: Status)
    requires root.Linked() && before in root.chain && root.Has(before)
    requires node !in root.chain && node != root
    modifies root, before, node, root.chain
    ensures s == Done && root.Linked()
    ensures root.chain == Splice(old(root.chain), Find(old(root.chain), before), node)
    ensures root.children == Unshift(old(root.children), node)
  {
    root.LinkedNoRepeats();
    ghost var k := Find(root.chain, before);
    s := root.Insert(before, node);
    SpliceIndex(old(root.chain), k, node);
    root.InsertKeepsLinked(k);
  }

  /** `remove` of a child, on a node that is only well linked, keeps it well linked. */
  method LinkedRemove<V>(root: Node<V>, x: Node<V>) returns (t: Status)
    requires root.Linked() && x in root.chain && root.Has(x)
    modifies root, x, root.chain
    ensures t == Done && root.Linked()
    ensures root.chain == Delete(old(root.chain), Find(old(root.chain), x))
    ensures root.children == Unset(old(root.children), x.key)
    ensures x.previous == null && x.next == null && x.parent == null
  {
    root.LinkedNoRepeats();
    t := root.Remove(x);
    root.RemoveKeepsLinked(x);
  }

  /**
   * The keyed insertion in front of any child of a valid node, of a node
   * under a new key: it succeeds and keeps the node valid, with the new node
   * spliced in before `before` in chain and index alike.
   */
  method ValidInsertKeyed<V>(root: Node<V>, before: Node<V>, node: Node<V>) returns (s: Status)
    requires root.Valid() && before in root.chain && !root.Has(node) && node != root
    modifies root, before, node, root.chain
    ensures s == Done && root.Valid()
    ensures root.chain == Splice(old(root.chain), Find(old(root.chain), before), node)
  {
    root.LinkedNoRepeats();
    ghost var k := Find(root.chain, before);
    assert root.children[k] == (before.key, before);
    PositionAt(root.children, k);
    s := root.InsertKeyed(before, node);
    SpliceIndex(old(root.chain), k, node);
    root.InsertKeepsLinked(k);
    InsertAtKeepsIndex(old(root.children), old(root.chain), before, node);
  }

  /**
   * Add-then-remove round trip: on a valid node, adding a node under a new
   * key and removing it again restores the children, in index and in chain.
   */
  method AddThenRemove<V>(root: Node<V>, x: Node<V>) returns (s: Status, t: Status)
    requires root.Valid() && !root.Has(x) && x != root
    modifies root, x, root.chain
    ensures s == Done && t == Done
    ensures root.Valid() && root.chain == old(root.chain) && root.children == old(root.children)
    ensures root.Count() == old(root.Count())
  {
    s := ValidAdd(root, x);
    t := ValidRemove(root, x);
    DeleteAppended(old(root.chain), x);
    UnsetAssignRoundTrip(old(root.children), x.key, x);
  }

  /** Removing the first of two children: the second becomes first, the removed one keeps no links. */
  method RemoveFirstChild<V>(root: Node<V>, a: Node<V>, b: Node<V>) returns (s: Status)
    requires root.Valid() && root.chain == [a, b]
    modifies root, a, b
    ensures s == Done && root.Valid() && root.chain == [b]
    ensures root.firstChild == b && root.LastChild() == b && root.Count() == 1
    ensures b.previous == null && b.next == null && b.parent == root
    ensures a.previous == null && a.next == null && a.parent == null
  {
    root.LinkedNoRepeats();
    label Two:
    s := root.Remove(a);
    root.RemoveKeepsLinked@Two(a);
    UnsetKeepsIndex(old@Two(root.children), old@Two(root.chain), a);
  }

  /**
   * Membership is by key: removing a node that is not a child but shares a
   * child's key succeeds. It drops the child's index entry and, as the
   * stranger has no previous sibling, clears firstChild; the real child
   * still names this node as its parent.
   */
  method RemoveByKeyOnly<V>(root: Node<V>, a: Node<V>, stranger: Node<V>) returns (s: Status)
    requires root.Valid() && root.chain == [a]
    requires stranger != a && stranger != root && stranger.key == a.key
    requires stranger.previous == null && stranger.next == null
    modifies root, stranger
    ensures s == Done && root.Count() == 0 && root.firstChild == null
    ensures a.parent == root && !root.Has(a)
  {
    assert root.Has(stranger);
    s := root.Remove(stranger);
  }

  /** Two children a and b, added in that order to a fresh node. */
  method TwoChildren() returns (root: Node<string>, a: Node<string>, b: Node<string>)
    ensures root.Valid() && root.chain == [a, b] && a.key == StrKey("a") && b.key == StrKey("b")
    ensures fresh(root) && fresh(a) && fresh(b)
  {
    root, a := AddFirstChild();
    b := new Node<string>(RawString("b"), "b");
    var walk := AddSecondChild(root, a, b);
  }

  /** From children a, b: insert c before b. The chain is a, c, b and a is still found by key. */
  method InsertBeforeSecond<V>(root: Node<V>, a: Node<V>, b: Node<V>, c: Node<V>) returns (s: Status)
    requires root.Valid() && root.chain == [a, b] && a.key.StrKey?
    requires c != root && c != a && c != b
    modifies root, a, b, c
    ensures s == Done && root.Linked() && root.chain == [a, c, b] && root.Has(a)
  {
    ghost var two := root.children;
    assert Find([a, b], b) == 1;
    s := LinkedInsert(root, b, c);
    assert Splice([a, b], 1, c) == [a, c, b];
    UnshiftFacts(two, c);
    assert two[0] == (a.key, a);
  }

  /** Continuing from that state: remove a. The walk is c, b and a keeps no links. */
  method RemoveFirstOfThree<V>(root: Node<V>, a: Node<V>, c: Node<V>, b: Node<V>) returns (walk: seq<Node<V>>)
    requires root.Linked() && root.chain == [a, c, b] && root.Has(a)
    modifies root, a, c, b
    ensures walk == [c, b] && root.firstChild == c
    ensures a.parent == null && a.previous == null && a.next == null
    ensures c.previous == null && c.next == b && b.previous == c && b.next == null
  {
    var t := LinkedRemove(root, a);
    assert root.chain == [a, c, b][1..];
    root.LinkedWalk();
    walk := root.Iterate(root.chain);
  }

  /**
   * Add a and b to a fresh node, insert c before b, then remove a: the walk
   * is c, b with c first, and a has no parent.
   */
  method AddInsertRemove() returns (root: Node<string>, a: Node<string>, walk: seq<Node<string>>)
    ensures |walk| == 2 && root.firstChild == walk[0] && walk[0].key == StrKey("c")
    ensures a.key == StrKey("a") && a.parent == null
  {
    var b;
    root, a, b := TwoChildren();
    var c := new Node<string>(RawString("c"), "c");
    var s := InsertBeforeSecond(root, a, b, c);
    walk := RemoveFirstOfThree(root, a, c, b);
  }

  /**
   * `insert` links the node in front of `before` but files it under integer
   * key 0 instead of its own key: afterwards `has` does not find it and
   * `remove` refuses it, though it is linked in as the first child.
   */
  method InsertedNodeNotFound<V>(root: Node<V>, a: Node<V>, c: Node<V>) returns (s: Status, t: Status)
    requires root.Valid() && root.chain == [a]
    requires c != root && c != a && c.key.StrKey? && c.key != a.key
    modifies root, a, c
    ensures s == Done && t == InvalidOperation(RemoveFailure)
    ensures root.Linked() && root.chain == [c, a] && c.parent == root
    ensures root.Count() == 2 && !root.Has(c)
  {
    root.LinkedNoRepeats();
    label One:
    s := root.Insert(a, c);
    root.InsertKeepsLinked@One(0);
    UnshiftLeavesKeyAbsent(old@One(root.children), c, c.key);
    assert root.firstChild == c && c.next == a && a.previous == c;
    t := root.Remove(c);
  }

  /** Inserting a child that is already in the chain is not refused: moving the
      last child in front of the first one leaves the first child's `next` on the
      moved node, so the walk from `firstChild` goes round for ever. */
  method InsertMemberMakesCycle<V>(root: Node<V>, a: Node<V>, b: Node<V>)
    requires root.Valid() && root.chain == [a, b]
    modifies root, a, b
    ensures root.firstChild == b && b.previous == null && b.next == a
    ensures a.previous == b && a.next == b
  {
    assert root.Has(a);
    var s := root.Insert(a, b);
    assert s == Done;
  }

  /**
   * The keyed insertion files the node under its own key: the parent stays
   * valid with c linked in front of a, and `has` finds c, so `remove`
   * accepts it (RemoveFirstChild above covers that removal).
   */
  method InsertKeyedNodeFound<V>(root: Node<V>, a: Node<V>, c: Node<V>) returns (s: Status)
    requires root.Valid() && root.chain == [a]
    requires c != root && c != a && c.key != a.key
    modifies root, a, c
    ensures s == Done && root.Valid() && root.chain == [c, a] && root.Has(c)
    ensures root.firstChild == c && c.next == a && a.previous == c && c.parent == root
  {
    assert root.children[0] == (a.key, a);
    label One:
    s := root.InsertKeyed(a, c);
    root.InsertKeepsLinked@One(0);
    InsertAtKeepsIndex(old@One(root.children), old@One(root.chain), a, c);
  }

  /**
   * `insert` of c before the last child b links c between a and b but files
   * it at the FRONT of the index, under integer key 0.
   */
  method InsertBeforeLast<V>(root: Node<V>, a: Node<V>, b: Node<V>, c: Node<V>)
    requires root.Valid() && root.chain == [a, b]
    requires a.key.StrKey? && b.key.StrKey?
    requires c != root && c != a && c != b
    modifies root, a, b, c
    ensures root.children == [(IntKey(0), c), (a.key, a), (b.key, b)]
    ensures root.firstChild == a && a.previous == null && a.next == c
    ensures c.previous == a && c.next == b && c.parent == root && b.previous == c && b.next == null
  {
    assert root.children == [(a.key, a), (b.key, b)];
    var s := root.Insert(b, c);
    assert s == Done;
  }

  /**
   * Continuing from that state: `getLastChild` reads the last index entry,
   * not the end of the chain. Once b is removed the index ends with a while
   * the chain a, c ends with c.
   */
  method RemoveAfterInsertSplitsOrder<V>(root: Node<V>, a: Node<V>, b: Node<V>, c: Node<V>)
    requires root.children == [(IntKey(0), c), (a.key, a), (b.key, b)]
    requires root.firstChild == a && a.previous == null && a.next == c
    requires c.previous == a && c.next == b && c.parent == root && b.previous == c && b.next == null
    requires a != b && a != c && b != c
    modifies root, b, c
    ensures root.children == [(IntKey(0), c), (a.key, a)] && root.LastChild() == a
    ensures root.firstChild == a && a.previous == null && a.next == c
    ensures c.previous == a && c.next == null && c.parent == root
  {
    UnsetAt(root.children, 2);
    var t := root.Remove(b);
    assert t == Done;
  }

  /**
   * Continuing from that state: `add` links x after the index's last entry a,
   * so c drops out of the sibling chain (the walk from firstChild is a, x)
   * while the index counts three children and c still names its parent.
   */
  method AddAfterSplitOrphans<V>(root: Node<V>, a: Node<V>, c: Node<V>, x: Node<V>)
    requires root.children == [(IntKey(0), c), (a.key, a)]
    requires root.firstChild == a && a.previous == null && a.next == c
    requires c.previous == a && c.next == null && c.parent == root
    requires x != root && x != a && x != c && x.key != a.key && x.key != IntKey(0)
    modifies root, a, x
    ensures root.Count() == 3 && root.firstChild == a && a.previous == null && a.next == x
    ensures x.previous == a && x.next == null && x.parent == root
    ensures c.parent == root && c.previous == a && c.next == null
  {
    var u := root.Add(x);
    assert u == Done;
  }

  /** The keyed insertion of c before the last child b files c between a and b in the index too. */
  method InsertKeyedBeforeLast<V>(root: Node<V>, a: Node<V>, b: Node<V>, c: Node<V>)
    requires root.Valid() && root.chain == [a, b]
    requires c != root && c != a && c != b && c.key != a.key && c.key != b.key
    modifies root, a, b, c
    ensures root.children == [(a.key, a), (c.key, c), (b.key, b)]
    ensures root.firstChild == a && a.previous == null && a.next == c
    ensures c.previous == a && c.next == b && c.parent == root && b.previous == c && b.next == null
  {
    ghost var before := [(a.key, a), (b.key, b)];
    assert root.children == before;
    PositionAt(before, 1);
    var s := root.InsertKeyed(b, c);
    assert root.children == before[..1] + [(c.key, c)] + before[1..];
    assert s == Done;
  }

  /**
   * Continuing from that state: once b is removed the index and the chain
   * both end with c, which `getLastChild` reports.
   */
  method RemoveAfterKeyedKeepsOrder<V>(root: Node<V>, a: Node<V>, b: Node<V>, c: Node<V>)
    requires root.children == [(a.key, a), (c.key, c), (b.key, b)]
    requires root.firstChild == a && a.previous == null && a.next == c
    requires c.previous == a && c.next == b && c.parent == root && b.previous == c && b.next == null
    requires a != b && a != c && b != c
    modifies root, b, c
    ensures root.children == [(a.key, a), (c.key, c)] && root.LastChild() == c
    ensures root.firstChild == a && a.previous == null && a.next == c
    ensures c.previous == a && c.next == null && c.parent == root
  {
    UnsetAt(root.children, 2);
    var t := root.Remove(b);
    assert t == Done;
  }

  /** Continuing from that state: `add` links x after c, and the walk is a, c, x. */
  method AddAfterKeyedLinks<V>(root: Node<V>, a: Node<V>, c: Node<V>, x: Node<V>)
    requires root.children == [(a.key, a), (c.key, c)]
    requires root.firstChild == a && a.previous == null && a.next == c
    requires c.previous == a && c.next == null && c.parent == root
    requires x != root && x != a && x != c && x.key != a.key && x.key != c.key
    modifies root, c, x
    ensures root.Count() == 3 && root.firstChild == a && a.previous == null && a.next == c
    ensures c.previous == a && c.next == x && c.parent == root
    ensures x.previous == c && x.next == null && x.parent == root
  {
    var u := root.Add(x);
    assert u == Done;
  }

  /**
   * The three steps of `insert`, `remove` and `add` from a node with children
   * a and b: the walk from firstChild is a, x, so c is no longer iterated,
   * yet the count is three and c still names the node as parent.
   */
  method InsertRemoveAddLosesChild<V>(root: Node<V>, a: Node<V>, b: Node<V>, c: Node<V>, x: Node<V>)
    returns (walk: seq<Node<V>>)
    requires root.Valid() && root.chain == [a, b] && a.key.StrKey? && b.key.StrKey?
    requires c != root && c != a && c != b
    requires x != root && x != a && x != b && x != c && x.key.StrKey? && x.key != a.key
    modifies root, a, b, c, x
    ensures walk == [a, x] && c !in walk && c.parent == root && root.Count() == 3
  {
    InsertBeforeLast(root, a, b, c);
    RemoveAfterInsertSplitsOrder(root, a, b, c);
    AddAfterSplitOrphans(root, a, c, x);
    walk := root.Iterate([a, x]);
  }

  /** The same three steps with the keyed insertion: the walk is a, c, x and no child is lost. */
  method KeyedInsertRemoveAddKeepsChild<V>(root: Node<V>, a: Node<V>, b: Node<V>, c: Node<V>, x: Node<V>)
    returns (walk: seq<Node<V>>)
    requires root.Valid() && root.chain == [a, b]
    requires c != root && c != a && c != b && c.key != a.key && c.key != b.key
    requires x != root && x != a && x != b && x != c && x.key != a.key && x.key != c.key
    modifies root, a, b, c, x
    ensures walk == [a, c, x] && c.parent == root && root.Count() == 3
  {
    InsertKeyedBeforeLast(root, a, b, c);
    RemoveAfterKeyedKeepsOrder(root, a, b, c);
    AddAfterKeyedLinks(root, a, c, x);
    walk := root.Iterate([a, c, x]);
  }
}
