/**
 * The part of PHP's ordered arrays that the node class relies on for its
 * child index: keys that are integers or strings, entries kept in insertion
 * order, and the operations `$a[$k] = $v`, `unset($a[$k])`, `isset($a[$k])`,
 * `count($a)`, `end($a)` and `array_unshift($a, $v)`.
 *
 * An array is a sequence of (key, value) entries whose keys are pairwise
 * distinct; its order is the array's iteration order.
 */
module PhpArray {

  datatype Option<T> = None | Some(value: T)

  /** An array key as PHP stores it: an integer or a string. */
  datatype Key = IntKey(i: int) | StrKey(s: string)

  /**
   * A key as a caller may pass it to the node constructor. PHP keeps an
   * integer as it is and turns every other scalar into its string form.
   */
  datatype RawKey = RawInt(i: int) | RawString(s: string) | RawBool(b: bool) | RawNull

  /** The string PHP's interpolation `"$key"` produces for a non-integer key. */
  function StringForm(k: RawKey): (r: string)
    requires !k.RawInt?
    ensures k.RawString? ==> r == k.s
    ensures k.RawBool? ==> (r == "1" <==> k.b) && (r == "" <==> !k.b)
    ensures k.RawNull? ==> r == ""
  {
    match k
    case RawString(s) => s
    case RawBool(b) => if b then "1" else ""
    case RawNull => ""
  }

  /** Key normalisation of the constructor: `is_int($key) ? $key : "$key"`. */
  function Normalize(k: RawKey): (r: Key)
    ensures r.IntKey? <==> k.RawInt?
    ensures k.RawInt? ==> r.i == k.i
    ensures !k.RawInt? ==> r.s == StringForm(k)
  {
    if k.RawInt? then IntKey(k.i) else StrKey(StringForm(k))
  }

  /** A stored key fed back to the constructor is stored unchanged. */
  function Raw(k: Key): RawKey
  {
    match k
    case IntKey(i) => RawInt(i)
    case StrKey(s) => RawString(s)
  }

  lemma NormalizeIdempotent(k: RawKey)
    ensures Normalize(Raw(Normalize(k))) == Normalize(k)
  {
  }

  /**
   * The key of entry i. Distinctness is stated on this function so that a
   * proof draws on it only where it names the entries it compares.
   */
  function KeyAt<T>(a: seq<(Key, T)>, i: nat): Key
    requires i < |a|
  {
    a[i].0
  }

  predicate DistinctKeys<T>(a: seq<(Key, T)>)
  {
    forall i, j :: 0 <= i < j < |a| ==> KeyAt(a, i) != KeyAt(a, j)
  }

  /** A PHP array: entries in order, no key twice. */
  type OrderedArray<T> = a: seq<(Key, T)> | DistinctKeys(a) witness []

  /** The values of an array, in array order. */
  function Values<T>(a: seq<(Key, T)>): (vs: seq<T>)
    ensures |vs| == |a|
    ensures forall i :: 0 <= i < |a| ==> vs[i] == a[i].1
  {
    if a == [] then [] else [a[0].1] + Values(a[1..])
  }

  /** Where key `k` sits in `a`: the first entry with that key, or |a| if none. */
  function Position<T>(a: seq<(Key, T)>, k: Key): (p: nat)
    ensures p <= |a|
    ensures p < |a| ==> a[p].0 == k
    ensures forall j :: 0 <= j < p ==> a[j].0 != k
  {
    if a == [] then 0 else if a[0].0 == k then 0 else 1 + Position(a[1..], k)
  }

  /** `isset($a[$k])` (the values stored here are never null). */
  function HasKey<T>(a: seq<(Key, T)>, k: Key): (b: bool)
    ensures b <==> exists j :: 0 <= j < |a| && a[j].0 == k
  {
    Position(a, k) < |a|
  }

  /** In an array with distinct keys, the entry at index i is where its key is found. */
  lemma PositionAt<T>(a: OrderedArray<T>, i: nat)
    requires i < |a|
    ensures Position(a, a[i].0) == i
  {
    var p := Position(a, a[i].0);
    assert p <= i;
    assert KeyAt(a, p) == KeyAt(a, i);
  }

  /** `$a[$k]`: the value stored under `k`, or None (PHP: a notice and null). */
  function Lookup<T>(a: OrderedArray<T>, k: Key): (r: Option<T>)
    ensures r.Some? <==> HasKey(a, k)
    ensures forall i :: 0 <= i < |a| && a[i].0 == k ==> r == Some(a[i].1)
  {
    var p := Position(a, k);
    if p < |a| then
      assert forall i :: 0 <= i < |a| && a[i].0 == k ==> i == p by {
        forall i | 0 <= i < |a| && a[i].0 == k ensures i == p {
          PositionAt(a, i);
        }
      }
      Some(a[p].1)
    else None
  }

  /** Two arrays that hold the same entries under key `k` agree on `k`. */
  lemma LookupAgree<T>(a: OrderedArray<T>, b: OrderedArray<T>, k: Key)
    requires forall i :: 0 <= i < |a| && a[i].0 == k ==> a[i] in b
    requires forall j :: 0 <= j < |b| && b[j].0 == k ==> b[j] in a
    ensures Lookup(a, k) == Lookup(b, k)
  {
    if HasKey(a, k) {
      var i :| 0 <= i < |a| && a[i].0 == k;
      var j :| 0 <= j < |b| && b[j] == a[i];
    }
    if HasKey(b, k) {
      var j :| 0 <= j < |b| && b[j].0 == k;
      var i :| 0 <= i < |a| && a[i] == b[j];
    }
  }

  /** `count($a)`. */
  function Count<T>(a: OrderedArray<T>): (n: nat)
    ensures n == |Values(a)|
  {
    |a|
  }

  /** `end($a)`: the last value in array order, None for an empty array. */
  function End<T>(a: OrderedArray<T>): (r: Option<T>)
    ensures r.None? <==> a == []
    ensures r.Some? ==> r.value == Values(a)[|a| - 1]
  {
    if a == [] then None else Some(a[|a| - 1].1)
  }

  /**
   * `$a[$k] = $v`: overwrites the value in place when `k` is present,
   * otherwise appends a new last entry.
   */
  function Assign<T>(a: OrderedArray<T>, k: Key, v: T): (r: OrderedArray<T>)
    ensures Lookup(r, k) == Some(v)
    ensures HasKey(a, k) ==> |r| == |a| && Position(r, k) == Position(a, k)
    ensures !HasKey(a, k) ==> r == a + [(k, v)]
    ensures forall j :: 0 <= j < |a| && a[j].0 != k ==> r[j] == a[j]
  {
    var p := Position(a, k);
    if p < |a| then
      var r := a[p := (k, v)];
      assert DistinctKeys(r) by {
        forall i, j | 0 <= i < j < |r| ensures KeyAt(r, i) != KeyAt(r, j) {
          if i != p && j != p { assert KeyAt(a, i) != KeyAt(a, j); }
          else if i == p { assert KeyAt(a, p) != KeyAt(a, j); }
        }
      }
      PositionAt(r, p);
      r
    else
      var r := a + [(k, v)];
      assert DistinctKeys(r) by {
        forall i, j | 0 <= i < j < |r| ensures KeyAt(r, i) != KeyAt(r, j) {
          if j < |a| { assert KeyAt(a, i) != KeyAt(a, j); }
        }
      }
      assert r[|a|] == (k, v);
      r
  }

  /** `unset($a[$k])`: drops the entry under `k`, if any, keeping the order of the rest. */
  function Unset<T>(a: OrderedArray<T>, k: Key): (r: OrderedArray<T>)
    ensures !HasKey(r, k)
    ensures |r| == if HasKey(a, k) then |a| - 1 else |a|
    ensures forall k': Key :: k' != k ==> Lookup(r, k') == Lookup(a, k')
  {
    var p := Position(a, k);
    if p < |a| then
      var r := a[..p] + a[p + 1..];
      UnsetKeepsOthers(a, p);
      r
    else a
  }

  lemma UnsetKeepsOthers<T>(a: OrderedArray<T>, p: nat)
    requires p < |a|
    ensures DistinctKeys(a[..p] + a[p + 1..])
    ensures !HasKey(a[..p] + a[p + 1..], a[p].0)
    ensures forall k': Key :: k' != a[p].0 ==> Lookup(a[..p] + a[p + 1..], k') == Lookup(a, k')
  {
    var r := a[..p] + a[p + 1..];
    forall j | 0 <= j < |r| ensures r[j] == a[if j < p then j else j + 1] { }
    forall i, j | 0 <= i < j < |r| ensures KeyAt(r, i) != KeyAt(r, j) {
      assert KeyAt(a, if i < p then i else i + 1) != KeyAt(a, if j < p then j else j + 1);
    }
    forall j | 0 <= j < |r| ensures r[j].0 != a[p].0 {
      var i := if j < p then j else j + 1;
      if i < p { assert KeyAt(a, i) != KeyAt(a, p); } else { assert KeyAt(a, p) != KeyAt(a, i); }
    }
    forall i | 0 <= i < |a| && i != p ensures a[i] in r {
      assert r[if i < p then i else i - 1] == a[i];
    }
    forall k': Key | k' != a[p].0 ensures Lookup(r, k') == Lookup(a, k') {
      LookupAgree(r, a, k');
    }
  }

  /** Unsetting the entry at index i removes exactly that entry. */
  lemma UnsetAt<T>(a: OrderedArray<T>, i: nat)
    requires i < |a|
    ensures Unset(a, a[i].0) == a[..i] + a[i + 1..]
  {
    PositionAt(a, i);
  }

  /** Appending under a fresh key and unsetting that key gives back the array. */
  lemma UnsetAssignRoundTrip<T>(a: OrderedArray<T>, k: Key, v: T)
    requires !HasKey(a, k)
    ensures Unset(Assign(a, k, v), k) == a
  {
    var r := Assign(a, k, v);
    UnsetAt(r, |a|);
    assert r[..|a|] == a;
  }

  /** How many of the entries carry an integer key. */
  function IntKeyCount<T>(a: seq<(Key, T)>): (n: nat)
    ensures n <= |a|
  {
    if a == [] then 0 else (if a[0].0.IntKey? then 1 else 0) + IntKeyCount(a[1..])
  }

  /** The count is zero exactly when every key is a string, and the length exactly when every key is an integer. */
  lemma {:induction false} IntKeyCountRange<T>(a: seq<(Key, T)>)
    ensures IntKeyCount(a) == 0 <==> forall i :: 0 <= i < |a| ==> a[i].0.StrKey?
    ensures IntKeyCount(a) == |a| <==> forall i :: 0 <= i < |a| ==> a[i].0.IntKey?
  {
    if a != [] {
      IntKeyCountRange(a[1..]);
      assert forall i :: 0 < i < |a| ==> a[1..][i - 1] == a[i];
    }
  }

  /**
   * The renumbering `array_unshift` applies to the entries it shifts: integer
   * keys become `next`, `next + 1`, ... in array order; string keys stay.
   */
  function Renumber<T>(a: seq<(Key, T)>, next: int): (r: seq<(Key, T)>)
    ensures |r| == |a|
    ensures forall i :: 0 <= i < |a| ==> r[i].1 == a[i].1
    ensures forall i :: 0 <= i < |a| && a[i].0.StrKey? ==> r[i].0 == a[i].0
    ensures forall i :: 0 <= i < |a| && a[i].0.IntKey? ==> r[i].0.IntKey? && next <= r[i].0.i
  {
    if a == [] then []
    else
      var head := if a[0].0.IntKey? then (IntKey(next), a[0].1) else a[0];
      var rest := Renumber(a[1..], if a[0].0.IntKey? then next + 1 else next);
      assert forall i :: 0 < i < |a| ==> a[1..][i - 1] == a[i] && ([head] + rest)[i] == rest[i - 1];
      [head] + rest
  }

  /** Renumbering numbers the integer keys consecutively from `next`. */
  lemma {:induction false} RenumberKey<T>(a: seq<(Key, T)>, next: int, i: nat)
    requires i < |a| && a[i].0.IntKey?
    ensures Renumber(a, next)[i].0 == IntKey(next + IntKeyCount(a[..i]))
  {
    var d := if a[0].0.IntKey? then 1 else 0;
    var r, rest := Renumber(a, next), Renumber(a[1..], next + d);
    assert r == [if d == 1 then (IntKey(next), a[0].1) else a[0]] + rest;
    if i == 0 {
      assert a[..i] == [];
    } else {
      RenumberKey(a[1..], next + d, i - 1);
      assert a[1..][i - 1] == a[i] && r[i] == rest[i - 1];
      assert a[..i][1..] == a[1..][..i - 1];
      assert IntKeyCount(a[..i]) == d + IntKeyCount(a[1..][..i - 1]);
    }
  }

  /** Counting integer keys distributes over concatenation. */
  lemma {:induction false} IntKeyCountAppend<T>(x: seq<(Key, T)>, y: seq<(Key, T)>)
    ensures IntKeyCount(x + y) == IntKeyCount(x) + IntKeyCount(y)
  {
    if x != [] {
      assert (x + y)[1..] == x[1..] + y;
      IntKeyCountAppend(x[1..], y);
    } else {
      assert x + y == y;
    }
  }

  /** A prefix that reaches past an integer-keyed entry counts more integer keys. */
  lemma IntKeyCountGrows<T>(a: seq<(Key, T)>, i: nat, j: nat)
    requires i < j <= |a| && a[i].0.IntKey?
    ensures IntKeyCount(a[..i]) < IntKeyCount(a[..j])
  {
    assert a[..j] == a[..i] + a[i..j];
    IntKeyCountAppend(a[..i], a[i..j]);
    assert a[i..j][0] == a[i];
    assert IntKeyCount(a[i..j]) == 1 + IntKeyCount(a[i..j][1..]);
  }

  /** Renumbering keeps the integer keys in increasing order. */
  lemma RenumberIncreasing<T>(a: seq<(Key, T)>, next: int, i: nat, j: nat)
    requires i < j < |a| && a[i].0.IntKey? && a[j].0.IntKey?
    ensures Renumber(a, next)[i].0.i < Renumber(a, next)[j].0.i
  {
    RenumberKey(a, next, i);
    RenumberKey(a, next, j);
    IntKeyCountGrows(a, i, j);
  }

  /** Renumbering keeps keys distinct: string keys are kept, integer keys increase. */
  lemma RenumberDistinct<T>(a: OrderedArray<T>, next: int)
    ensures DistinctKeys(Renumber(a, next))
  {
    var r := Renumber(a, next);
    forall i, j | 0 <= i < j < |r| ensures KeyAt(r, i) != KeyAt(r, j) {
      if a[i].0.StrKey? && a[j].0.StrKey? {
        assert KeyAt(a, i) != KeyAt(a, j);
      } else if a[i].0.IntKey? && a[j].0.IntKey? {
        RenumberIncreasing(a, next, i, j);
      }
    }
  }

  /**
   * `array_unshift($a, $v)`: `v` becomes the first entry, under integer key 0;
   * the other integer keys are renumbered from 1 in order; string keys stay.
   */
  function Unshift<T>(a: OrderedArray<T>, v: T): (r: OrderedArray<T>)
    ensures |r| == |a| + 1 && r[0] == (IntKey(0), v)
  {
    UnshiftDistinct(a, v);
    [(IntKey(0), v)] + Renumber(a, 1)
  }

  lemma UnshiftDistinct<T>(a: OrderedArray<T>, v: T)
    ensures DistinctKeys([(IntKey(0), v)] + Renumber(a, 1))
  {
    RenumberDistinct(a, 1);
    var s := Renumber(a, 1);
    var r := [(IntKey(0), v)] + s;
    forall i, j | 0 <= i < j < |r| ensures KeyAt(r, i) != KeyAt(r, j) {
      assert r[j] == s[j - 1];
      if i > 0 {
        assert r[i] == s[i - 1];
        assert KeyAt(s, i - 1) != KeyAt(s, j - 1);
      } else {
        assert a[j - 1].0.IntKey? ==> 1 <= s[j - 1].0.i;
      }
    }
  }

  /**
   * What `array_unshift` does to the array: one entry more, `v` first under
   * integer key 0, the old values after it in their order, and every string
   * key still mapping to what it mapped to.
   */
  lemma UnshiftValues<T>(a: OrderedArray<T>, v: T)
    ensures Values(Unshift(a, v)) == [v] + Values(a)
  {
    assert Values(Unshift(a, v)) == [v] + Values(a);
  }

  /** The integer-keyed entry at index i moves to index i + 1 and is numbered after the integer keys before it, from 1. */
  lemma UnshiftRenumbers<T>(a: OrderedArray<T>, v: T, i: nat)
    requires i < |a| && a[i].0.IntKey?
    ensures Unshift(a, v)[i + 1].0 == IntKey(1 + IntKeyCount(a[..i]))
  {
    RenumberKey(a, 1, i);
  }

  lemma UnshiftFacts<T>(a: OrderedArray<T>, v: T)
    ensures |Unshift(a, v)| == |a| + 1 && Unshift(a, v)[0] == (IntKey(0), v)
    ensures Values(Unshift(a, v)) == [v] + Values(a)
    ensures forall k: Key :: k.StrKey? ==> Lookup(Unshift(a, v), k) == Lookup(a, k)
  {
    var r := Unshift(a, v);
    UnshiftValues(a, v);
    forall k: Key | k.StrKey? ensures Lookup(r, k) == Lookup(a, k) {
      forall i | 0 <= i < |a| && a[i].0 == k ensures a[i] in r {
        assert r[i + 1] == a[i];
      }
      forall j | 0 <= j < |r| && r[j].0 == k ensures r[j] in a {
        assert r[j] == a[j - 1];
      }
      LookupAgree(a, r, k);
    }
  }

  /**
   * After `array_unshift`, a string key that was absent is still absent: the
   * shifted-in value is reachable only under integer key 0.
   */
  lemma UnshiftLeavesKeyAbsent<T>(a: OrderedArray<T>, v: T, k: Key)
    requires k.StrKey? && !HasKey(a, k)
    ensures !HasKey(Unshift(a, v), k)
    ensures Lookup(Unshift(a, v), IntKey(0)) == Some(v)
  {
    UnshiftFacts(a, v);
    assert Lookup(Unshift(a, v), k) == Lookup(a, k);
  }

  /**
   * Keyed insertion at index p (not a PHP primitive): the entry (k, v) is
   * placed in front of the entry now at p. Used by the corrected insertion.
   */
  function InsertAt<T>(a: OrderedArray<T>, p: nat, k: Key, v: T): (r: OrderedArray<T>)
    requires p <= |a| && !HasKey(a, k)
  {
    InsertAtDistinct(a, p, k, v);
    a[..p] + [(k, v)] + a[p..]
  }

  lemma InsertAtLength<T>(a: OrderedArray<T>, p: nat, k: Key, v: T)
    requires p <= |a| && !HasKey(a, k)
    ensures |InsertAt(a, p, k, v)| == |a| + 1
  {
  }

  /**
   * What keyed insertion does: one entry more, `k` now maps to `v`, every
   * other key maps to what it mapped to, and `v` sits at position p among
   * the values.
   */
  lemma InsertAtFacts<T>(a: OrderedArray<T>, p: nat, k: Key, v: T)
    requires p <= |a| && !HasKey(a, k)
    ensures |InsertAt(a, p, k, v)| == |a| + 1
    ensures Lookup(InsertAt(a, p, k, v), k) == Some(v)
    ensures forall k': Key :: k' != k ==> Lookup(InsertAt(a, p, k, v), k') == Lookup(a, k')
    ensures Values(InsertAt(a, p, k, v)) == Values(a)[..p] + [v] + Values(a)[p..]
  {
    var r := InsertAt(a, p, k, v);
    assert r[p] == (k, v);
    forall k': Key | k' != k ensures Lookup(r, k') == Lookup(a, k') {
      InsertAtAgree(a, p, k, v, k');
    }
    InsertAtValues(a, p, k, v);
  }

  lemma InsertAtValues<T>(a: seq<(Key, T)>, p: nat, k: Key, v: T)
    requires p <= |a|
    ensures Values(a[..p] + [(k, v)] + a[p..]) == Values(a)[..p] + [v] + Values(a)[p..]
  {
    var r := a[..p] + [(k, v)] + a[p..];
    var w := Values(a)[..p] + [v] + Values(a)[p..];
    forall j | 0 <= j < |r| ensures Values(r)[j] == w[j] {
      if j < p { assert r[j] == a[j]; }
      else if j > p { assert r[j] == a[j - 1]; }
    }
  }

  lemma InsertAtDistinct<T>(a: OrderedArray<T>, p: nat, k: Key, v: T)
    requires p <= |a| && !HasKey(a, k)
    ensures DistinctKeys(a[..p] + [(k, v)] + a[p..])
  {
    var r := a[..p] + [(k, v)] + a[p..];
    forall i, j | 0 <= i < j < |r| ensures KeyAt(r, i) != KeyAt(r, j) {
      if i != p && j != p {
        assert r[i] == a[if i < p then i else i - 1];
        assert r[j] == a[if j < p then j else j - 1];
        assert KeyAt(a, if i < p then i else i - 1) != KeyAt(a, if j < p then j else j - 1);
      } else if i == p {
        assert r[j] == a[j - 1];
      } else {
        assert r[i] == a[i];
      }
    }
  }

  lemma InsertAtAgree<T>(a: OrderedArray<T>, p: nat, k: Key, v: T, k': Key)
    requires p <= |a| && !HasKey(a, k) && k' != k
    requires DistinctKeys(a[..p] + [(k, v)] + a[p..])
    ensures Lookup(a[..p] + [(k, v)] + a[p..], k') == Lookup(a, k')
  {
    var r: OrderedArray<T> := a[..p] + [(k, v)] + a[p..];
    forall i | 0 <= i < |a| && a[i].0 == k' ensures a[i] in r {
      assert r[if i < p then i else i + 1] == a[i];
    }
    forall j | 0 <= j < |r| && r[j].0 == k' ensures r[j] in a {
      assert r[j] == a[if j < p then j else j - 1];
    }
    LookupAgree(r, a, k');
  }
}
