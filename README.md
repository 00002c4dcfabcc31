# Node: a tree node with a sibling chain and a child index

ScriptFUSION's `Node` is a PHP tree node. Each node has a key, a value and
three links: `next`, `previous` and `parent`. It keeps its children twice:
- as a doubly linked **sibling chain**, which starts at `firstChild` and which
  iteration follows;
- as a **child index**, a PHP array from each child's key to the child, which
  membership (`has`), `count` and `getLastChild` read.

`add` appends a child, `insert` places a child in front of a member, and
`remove` unlinks a child. Each of them rewrites both structures. This model
states what each operation does to both structures, and proves the following:
- when `add` and `remove` start from a node whose chain and index agree, they
  end with them still agreeing;
- `add` followed by `remove` restores the node;
- `insert` breaks the agreement in two ways, shown by scenarios.

The project has three modules.

- `PhpArray` (php_array.dfy): the part of PHP's ordered arrays that the node
  uses. Keys are normalised as PHP normalises them. The module models
  assignment, `unset`, `end`, `count` and `array_unshift`. `array_unshift`
  renumbers the integer keys from 0 and keeps the string keys. An array is a
  sequence of key/value pairs with distinct keys (`OrderedArray`).
- `NodeTree` (node.dfy): the class `Node<V>` with the source's fields. A ghost
  field `chain` holds the children in sibling order. The predicates are:
  - `Linked`: the `next`/`previous`/`parent`/`firstChild` pointers spell out
    `chain`;
  - `Indexed`: `children` holds exactly the elements of `chain`, each under its
    own key, in the same order;
  - `Valid`: both of the above.

  After an `insert` as written the index no longer agrees with the chain, but
  the links still do: the lemmas about the links need only `Linked` and a
  chain without repeats (`NoRepeats`, which `LinkedNoRepeats` derives from
  `Linked`).

  Mutators have no `Valid` precondition, as the source has none. Their
  postconditions describe every field they write, for all inputs including
  aliased ones. Separate two-state lemmas show that `Valid` is preserved.
- `NodeScenarios` (scenarios.dfy): the unit tests of test/NodeTest.php, the
  add/remove round trip, insertion and removal on a node that is only well
  linked, and the scenarios that exhibit the findings below.

Failures are not exceptions here. A mutator returns a `Status`, either
`Done` or `InvalidOperation(message)`, with the source's messages. A failing
call changes nothing.

## Model

| member | source | states |
|---|---|---|
| PhpArray.StringForm | src/Node.php:29 | the string form of `"$key"`: a string is kept, true is "1", false and null are "" |
| PhpArray.Normalize | src/Node.php:29 | an integer key stays that integer; any other key becomes its string form (true is "1", false and null are "") |
| PhpArray.NormalizeIdempotent | src/Node.php:29 | normalising an already normalised key changes nothing |
| PhpArray.Values | src/Node.php:25 | the array's values, in order, one per entry |
| PhpArray.Position | src/Node.php:94 | the index of the entry with the key, or the length when it is absent; no earlier entry has that key |
| PhpArray.HasKey | src/Node.php:94 | `isset` on an array of non-null values: true exactly when some entry has the key |
| PhpArray.PositionAt | src/Node.php:94 | in an array with distinct keys, the position of an entry's key is that entry's index |
| PhpArray.Lookup | src/Node.php:115 | `$a[$k]` yields a value exactly when the key is present, and it is the value stored under that key |
| PhpArray.LookupAgree | src/Node.php:115 | two arrays that hold the same entries for a key agree on reading that key |
| PhpArray.Count | src/Node.php:101 | `count` is the number of values |
| PhpArray.End | src/Node.php:196 | `end` gives nothing exactly for the empty array, and otherwise the last value |
| PhpArray.Assign | src/Node.php:49 | after `$a[$k] = $v` the key reads `$v`; a new key is appended at the end; an existing key keeps its place; other entries are untouched |
| PhpArray.Unset | src/Node.php:89 | after `unset($a[$k])` the key is absent, the length drops by one exactly when the key was present, and every other key reads as before |
| PhpArray.UnsetKeepsOthers | src/Node.php:89 | cutting out one entry keeps keys distinct, removes that key and leaves every other key's lookup unchanged |
| PhpArray.UnsetAt | src/Node.php:89 | unsetting the key of entry i is cutting entry i out of the sequence |
| PhpArray.UnsetAssignRoundTrip | src/Node.php:49 | assigning a new key and unsetting it again gives back the original array |
| PhpArray.IntKeyCountRange | src/Node.php:69 | the number of integer-keyed entries is zero exactly when every key is a string, and the length exactly when every key is an integer |
| PhpArray.Renumber | src/Node.php:69 | `array_unshift`'s renumbering keeps length, values and string keys, and gives integer keys numbers from the start value on |
| PhpArray.RenumberKey | src/Node.php:69 | the integer-keyed entry at index i gets the start value plus the number of integer keys before it |
| PhpArray.IntKeyCountAppend | src/Node.php:69 | integer keys of a concatenation are counted by adding the counts of the parts |
| PhpArray.IntKeyCountGrows | src/Node.php:69 | a prefix that extends past an integer-keyed entry counts strictly more integer keys |
| PhpArray.RenumberIncreasing | src/Node.php:69 | renumbered integer keys strictly increase along the array |
| PhpArray.RenumberDistinct | src/Node.php:69 | renumbering keeps the keys of an array distinct |
| PhpArray.UnshiftDistinct | src/Node.php:69 | the unshifted array, with the new value under key 0 and the rest renumbered from 1, has distinct keys |
| PhpArray.Unshift | src/Node.php:69 | `array_unshift` adds exactly one entry, the new value under key 0 at the front |
| PhpArray.UnshiftRenumbers | src/Node.php:69 | an integer-keyed entry moves up one place and is numbered 1 + the number of integer keys before it |
| PhpArray.UnshiftValues | src/Node.php:69 | the values after `array_unshift` are the new value followed by the old values |
| PhpArray.UnshiftFacts | src/Node.php:69 | `array_unshift` puts the value first under key 0, keeps the other values in order, and leaves every string key's lookup unchanged |
| PhpArray.UnshiftLeavesKeyAbsent | src/Node.php:69 | an unshifted value is filed under 0, not under its own string key, which stays absent |
| PhpArray.InsertAtLength | src/Node.php:52-70 | inserting a new key at a position adds one entry |
| PhpArray.InsertAtFacts | src/Node.php:52-70 | inserting a new key at a position files the value under that key, leaves other keys unchanged, and puts the value at that position among the values |
| PhpArray.InsertAtValues | src/Node.php:52-70 | the values after the insertion are the old values with the new one spliced in at the position |
| PhpArray.InsertAtDistinct | src/Node.php:52-70 | inserting an absent key keeps the keys distinct |
| PhpArray.InsertAtAgree | src/Node.php:52-70 | inserting a key leaves the lookup of any other key unchanged |
| NodeTree.SpliceIndex | src/Node.php:58-67 | splicing a node into the sibling order at k shifts the later siblings up by one |
| NodeTree.DeleteIndex | src/Node.php:78-87 | deleting the sibling at k shifts the later siblings down by one |
| NodeTree.RepeatFreeAt | src/Node.php:132-139 | in a chain without repeats, the node at a position occurs nowhere else |
| NodeTree.IndexOfDistinct | src/Node.php:49 | an index that agrees with a chain makes the chain free of repeats |
| NodeTree.SpliceMultiset | src/Node.php:58-67 | splicing a node in at any position holds the same nodes as putting it first |
| NodeTree.UnshiftHoldsSplice | src/Node.php:58-69 | after `insert` the index holds the same nodes as the chain, although not in the same order |
| NodeTree.InsertAtKeepsIndex | src/Node.php:52-70 | filing the node under its own key at the position of `$before` keeps index and chain in agreement |
| NodeTree.UnsetKeepsIndex | src/Node.php:78-89 | unsetting a child's key and unlinking the child keep index and chain in agreement |
| NodeTree.IndexOfAppend | src/Node.php:39-49 | appending to the chain and appending under the child's key keep index and chain in agreement |
| NodeTree.DeleteAppended | src/Node.php:33-90 | deleting the node just appended to a chain without it gives back the chain |
| NodeTree.Node.LinkedDistinct | src/Node.php:132-139 | a well-linked sibling chain never repeats a node |
| NodeTree.Node.LinkedNoRepeats | src/Node.php:132-139 | the same for every pair of positions at once |
| NodeTree.Node.LinkedWalk | src/Node.php:132-139 | on a well-linked node, the walk along `next` from `firstChild` is the chain |
| NodeTree.Node.constructor | src/Node.php:27-31 | the key is normalised, the value is kept, there are no links and no children, and the node is valid |
| NodeTree.Node.Has | src/Node.php:92-95 | membership is by key: true exactly when some child has the node's key, so always true for a child |
| NodeTree.Node.Count | src/Node.php:99-102 | on an indexed node, the count is the number of children in the chain |
| NodeTree.Node.LastChild | src/Node.php:194-199 | null exactly when there are no index entries; on an indexed node, the last child of the chain |
| NodeTree.Node.OffsetExists | src/Node.php:108-111 | the same answer as `has` |
| NodeTree.Node.OffsetGet | src/Node.php:113-116 | a child exactly when `has` holds; on an indexed node, a child is returned for itself and any other result is the child with the offset's key |
| NodeTree.Node.Iterate | src/Node.php:132-139 | following `next` from `firstChild` until null yields exactly the nodes of that walk, in order |
| NodeTree.Node.Attach | src/Node.php:39-47 | the pointer stores that link a node between two siblings and under this parent, and set `firstChild` when there is no previous sibling |
| NodeTree.Node.Detach | src/Node.php:78-87 | the pointer stores that unlink a node: its neighbours are joined, `firstChild` moves on when it was first, and its own links are cleared |
| NodeTree.Node.Add | src/Node.php:33-50 | fails with the source's message exactly when `has` holds and then changes nothing; otherwise links the node after the last child, appends it under its key and adds one to the count |
| NodeTree.Node.AddKeepsNextLinks | src/Node.php:39-46 | after `add` the `next` links run along the extended chain and end in null |
| NodeTree.Node.AddKeepsPreviousLinks | src/Node.php:45 | after `add` the `previous` links run back along the extended chain and start at null |
| NodeTree.Node.AddKeepsValid | src/Node.php:33-50 | `add` of a new key on a valid node leaves it valid |
| NodeTree.Node.Insert | src/Node.php:52-70 | fails with the source's message exactly when `$before` is not a member; otherwise links the node between `$before` and its previous sibling and unshifts it into the index under key 0 |
| NodeTree.Node.InsertKeepsLinked | src/Node.php:58-67 | on a well-linked node without repeats, the links written by `insert` spell out the chain with the node spliced in before `$before` |
| NodeTree.Node.InsertKeyed | src/Node.php:52-70 | corrected `insert`: refuses `$before` unless it is itself the child filed under its key (the source checks the key only); refuses a node whose key is present, with a message of its own that the source lacks; otherwise links as `insert` does and files the node under its own key at the position of `$before` |
| NodeTree.Node.Remove | src/Node.php:72-90 | fails with the source's message exactly when `has` does not hold and then changes nothing; otherwise joins the node's neighbours, clears its links, unsets its key and leaves the node's own children alone |
| NodeTree.Node.RemoveKeepsNextLinks | src/Node.php:81-85 | on a well-linked node without repeats, after `remove` the `next` links run along the chain without the node |
| NodeTree.Node.RemoveKeepsPreviousLinks | src/Node.php:78-80 | on a well-linked node without repeats, after `remove` the `previous` links run back along the chain without the node |
| NodeTree.Node.RemoveKeepsLinked | src/Node.php:72-90 | `remove` of a child of a well-linked node without repeats leaves it well linked (no agreement with the index is needed) |
| NodeTree.Node.OffsetSet | src/Node.php:118-121 | `$node[] = $child` is `add($child)`: the offset is ignored |
| NodeTree.Node.OffsetUnset | src/Node.php:123-126 | `unset($node[$child])` is `remove($child)` |
| NodeScenarios.InitialState | test/NodeTest.php:17-28 | a fresh node has its key and value, no links, no first or last child, count 0 and an empty iteration |
| NodeScenarios.AddFirstChild | test/NodeTest.php:30-47 | after one `add` the child is first and last child with no siblings, the parent has no links and count 1, the child has count 0 |
| NodeScenarios.AddSecondChild | test/NodeTest.php:49-71 | a second `add` links the child after the first; the first child is still first, the new one is last, count 2, iteration yields both in order |
| NodeScenarios.AddDuplicateFails | test/NodeTest.php:73-79 | adding the same node twice fails the second time with the source's message and leaves the count at 1 |
| NodeScenarios.TwoChildren | test/NodeTest.php:30-71 | adding a and b to a fresh node leaves it valid with the chain a, b |
| NodeScenarios.ValidAdd | src/Node.php:33-50 | on a valid node, `add` under a new key succeeds, keeps the node valid and appends the child to chain and index |
| NodeScenarios.ValidRemove | src/Node.php:72-90 | on a valid node, `remove` of a child succeeds, keeps the node valid and deletes the child from chain and index |
| NodeScenarios.LinkedInsert | src/Node.php:52-70 | on a well-linked node (valid or not), `insert` before a child found by key succeeds and keeps the node well linked, with the node spliced in and the index unshifted |
| NodeScenarios.LinkedRemove | src/Node.php:72-90 | on a well-linked node (valid or not), `remove` of a child found by key succeeds, keeps the node well linked with the child deleted, and clears the child's links |
| NodeScenarios.ValidInsertKeyed | src/Node.php:52-70 | the corrected insertion, before any child of a valid node and of a node under a new key, succeeds and keeps the node valid with the node spliced in |
| NodeScenarios.AddThenRemove | src/Node.php:33-90 | adding a node under a new key and removing it again restores chain, index and count |
| NodeScenarios.RemoveFirstChild | src/Node.php:72-90 | removing the first of two children: the second becomes first and last child, count 1, the removed node keeps no links, the node stays valid |
| NodeScenarios.RemoveByKeyOnly | src/Node.php:74-89 | removing a stranger that shares the only child's key succeeds: the count drops to 0 and firstChild is cleared, while the child still names the node as parent and `has` no longer finds it |
| NodeScenarios.InsertBeforeSecond | src/Node.php:52-70 | from children a, b, inserting c before b gives the chain a, c, b, well linked, and a is still found by key |
| NodeScenarios.RemoveFirstOfThree | src/Node.php:72-90 | continuing, removing a gives the walk c, b with c first, and a keeps no links |
| NodeScenarios.AddInsertRemove | src/Node.php:33-90 | add a and b, insert c before b, remove a: the walk is two nodes, the first is c and is the first child, and a has no parent |
| NodeScenarios.InsertedNodeNotFound | src/Node.php:69 | after `insert` the node is linked in, but `has` denies it and `remove` of it fails |
| NodeScenarios.InsertMemberMakesCycle | src/Node.php:52-67 | `insert` of a child that is already a member, in front of the first child, leaves a cycle in the `next` links |
| NodeScenarios.InsertKeyedNodeFound | src/Node.php:52-70 | with the corrected insertion, the inserted node is linked, valid and found by `has` |
| NodeScenarios.InsertBeforeLast | src/Node.php:52-70 | `insert` before the last of two children links the node in the middle but files it first in the index, under key 0 |
| NodeScenarios.RemoveAfterInsertSplitsOrder | src/Node.php:72-90 | removing the chain's last child then makes `getLastChild` report the first child while the chain still ends at the inserted node |
| NodeScenarios.AddAfterSplitOrphans | src/Node.php:33-50 | a following `add` links the new node after the first child, cutting the inserted node out of iteration while it keeps its parent |
| NodeScenarios.InsertKeyedBeforeLast | src/Node.php:52-70 | the corrected insertion files the node at its chain position in the index |
| NodeScenarios.RemoveAfterKeyedKeepsOrder | src/Node.php:72-90 | removing the last child then leaves `getLastChild` on the inserted node, the chain's tail |
| NodeScenarios.AddAfterKeyedLinks | src/Node.php:33-50 | a following `add` links the new node after the inserted one: no child is lost |
| NodeScenarios.InsertRemoveAddLosesChild | src/Node.php:33-90 | `insert`, `remove`, `add` in that order from children a, b: the walk is a, x without c, while the count is 3 and c still names the node as parent |
| NodeScenarios.KeyedInsertRemoveAddKeepsChild | src/Node.php:33-90 | the same steps with the corrected insertion: the walk is a, c, x and the count is 3 |

## Left out

- Keys: only integer, string, boolean and null keys are modelled. PHP also turns a decimal-integer string such as "5" into the integer key 5, and this model keeps it as a string key. Float keys and other key types are not modelled.
- Exceptions: `InvalidOperationException` is modelled as a returned `Status`, not as a throw that unwinds the caller.
- `getIterator` is a lazy generator in PHP. `NodeTree.Node.Iterate` returns the whole sequence at once.
- NodeTree.Node.Iterate: requires the walk from `firstChild` to reach null, given as a ghost argument, because a terminating method cannot follow a cyclic chain. On the cycle `NodeScenarios.InsertMemberMakesCycle` builds, the PHP generator never ends. Nothing else is required: the walk may pass nodes with another parent.
- NodeTree.Node.OffsetGet: for a key that is absent, PHP raises an undefined-index notice and then yields null. The model yields null and does not model the notice.
- `getKey`, `getValue`, `getNext`, `getPrevious`, `getParent` and `getFirstChild` (src/Node.php:146-189) only return a field. The model reads the fields directly.
- The `Countable`, `ArrayAccess` and `IteratorAggregate` interfaces are not modelled as such. Their methods are modelled as ordinary members.
- NodeTree.Node.Add: its postcondition does not say that `Valid` is preserved. `NodeTree.Node.AddKeepsValid` states this, for a valid node and a new key.
- NodeTree.Node.Remove: its postcondition does not say that `Linked` is preserved. `NodeTree.Node.RemoveKeepsLinked` states this, and `NodeTree.UnsetKeepsIndex` covers the index.
- NodeTree.Node.Insert: its postcondition states the new index as `Unshift` of the old one. Beyond length and head, the facts about `Unshift` are the separate lemmas `PhpArray.UnshiftFacts`, `PhpArray.UnshiftValues` and `PhpArray.UnshiftRenumbers`.
- NodeTree.Node.Insert: its body unshifts the index before it stores the links. The source stores the links first. The two steps touch disjoint fields, so the final state is the same.
- Memory: garbage collection and PHP's copy-on-write arrays are not modelled. The index is a value field that the methods reassign.

## Findings

| source | as written | input that shows it | evidently intended | confidence | as-written member | corrected member |
|---|---|---|---|---|---|---|
| src/Node.php:69 | `insert` adds the node to the index with `array_unshift`. This files it under integer key 0, not under its own key, and renumbers the other integer keys. | A node with one child keyed "a". Insert a node keyed "c" before it. `has` of the new node is then false, `count` is 2, and `remove` of it fails with "not a member". | The node is filed under its own key, like `add` does, so that `has`, `offsetGet` and `remove` find it. The corrected `InsertKeyed` also checks `$before` by identity, not by key, and refuses a node whose key is already present, with a failure message the source lacks. | not executed | NodeScenarios.InsertedNodeNotFound | NodeScenarios.ValidInsertKeyed |
| src/Node.php:69, src/Node.php:196 | `insert` places the node first in the index while linking it in the middle of the chain. `getLastChild` reads the index, so it can name a node that is not the chain's tail. | Children "a" and "b". Insert "c" before "b", then remove "b": `getLastChild` is "a" but the chain is a, c. Then add "x": "x" is linked after "a", and "c" drops out of iteration while it still names the node as its parent. | The index keeps sibling order, so `getLastChild` is the chain's tail and `add` appends after it. | not executed | NodeScenarios.InsertRemoveAddLosesChild | NodeScenarios.ValidInsertKeyed |
