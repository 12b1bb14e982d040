# metalib: the metadata tree, in Dafny

metalib wraps nested dict/list data, usually loaded from YAML, in node objects. Every node knows
its parent and its depth (`level`). Attribute lookup on a node first checks the node itself and then
walks up the parent chain, so a descendant can read an ancestor's fields as if they were its own. The
repository carries two implementations of this tree, and both are modelled here:

- **The write-through tree** (`metalib/core.py`, module `Core` in `core.dfy`).
  - There are three node kinds: scalar, mutable mapping and mutable sequence.
  - A mapping or sequence node holds a reference (`_ref`) to the caller's own raw dict or list, plus a
    parallel cache (`_child_nodes`) of wrapped children.
  - Raw dicts and lists are heap objects (`RawDict`, `RawList`), so the sharing between a node and
    the caller's data is modelled, not assumed.
  - Nodes are classes. `parent`, `level`, `ref` and a scalar's `value` are constants. The cache is a
    field that `Set`, `Delete` and `Insert` reassign.
  - Each collection node class has a `Valid()` invariant: the cache wraps the backing container entry by entry,
    in the same key order, with this node as the parent of each child it created (`SyncedDict`, `SyncedList`, `Wraps`). A
    node passed in as a value is cached as that same node and keeps its own parent.
  - Every state-changing method keeps that invariant. Each states the new backing container and the
    new cache in terms of the old ones, and says that the new child is a fresh wrap of the new value,
    unless the value is already a node.
- **The copying tree** (`metalib/_nodes.py`, module `Nodes` in `nodes.dfy`).
  - Dict and list nodes are immutable copies of their input, with every dict and list replaced by a
    child node. They are datatypes.
  - A node's position is a `Located` value: the node together with its explicit list of ancestors.
    `parent` and `level` are computed from that list.
  - The generator `query` is a function that returns the nodes it yields and the exception that
    ended it, if any.
- **The package entry points** (`metalib/__init__.py`, module `Metalib` in `metalib.dfy`): `from_obj`,
  `concat`, and the column keys and rows that `to_dataframe` computes for its table.

Shared pieces:
- `pydict.dfy` models Python's insertion-ordered `dict` as a list of entries with distinct keys.
- `pytypes.dfy` holds the scalar payloads and the exceptions.
- `wrappers.dfy` holds `Option`, `Result`, `Outcome`, and `Collect`, a list comprehension whose first
  exception ends it.

The main results:
- **Attribute lookup answers from the nearest holder.** In both trees, lookup succeeds exactly when
  some node on the parent chain holds the name itself. When it succeeds, the answer comes from the
  nearest such node (`LookupFindsAny`, `LookupIsNearest`).
- **Reads follow the backing container.** On a valid node, the cache answers every read the way the
  backing container dictates:
  - a scalar comes back unwrapped;
  - a dict or list comes back as a live node over that very container;
  - a missing key or index raises the matching error.
- **Writes go through.** They change the backing container and the cache together, and a write
  into a nested node reaches the caller's raw data (`SetNested`).
- **Construction is a faithful copy.** Unwrapping a copied tree gives back its input for every value
  (`UnwrapTransform`).
- **`query` is a post-order scan.** It equals the reference scan of the descendants in depth-first
  post-order (`QueryIsScan`). From this, the behaviour with an AttributeError-raising predicate and
  with any other exception follows (`ScanFilters`, `ScanStopsAtError`).
- **Column keys have a closed form.** The column-key loop of `to_dataframe` computes exactly
  (keys of the dict datasets ∪ include) \ exclude (`ColumnKeys`).

### Strings in the two trees

The two trees treat a string differently:
- The write-through tree keeps a string whole. `_transform_value` (`metalib/core.py:24-27`) makes it a
  scalar node, and its `from_obj` (`metalib/core.py:259-264`) raises ValueError for a string root.
  `Core.TransformValue` and `Core.FromObj` state both.
- The exported `from_obj` (`metalib/__init__.py:33-34`) sends every non-dict iterable to the list-node
  branch. A string root such as `'hello'` therefore becomes a list node of five one-character strings.
  `Metalib.Iterate` and `Metalib.FromObj` state that split.

## Model

| member | source | states |
|---|---|---|
| PyDict.Dict.Put | metalib/core.py:141-143 | `d[k] = v` on a dict: afterwards `k` maps to `v`, every other key keeps its presence and value, the keys stay distinct, and an existing key keeps its place while a new one goes last |
| PyDict.Dict.Remove | metalib/core.py:151-153 | `del d[k]`: `k` is gone, every other key keeps its value and its order, and the length drops by one |
| Core.ScalarNode.constructor | metalib/core.py:87-94 | a scalar node holds the value; its level is 0 without a parent and the parent's level + 1 under one |
| Core.MappingNode.constructor | metalib/core.py:114-130 | the new mapping node refers to the caller's dict itself (`_ref`), has level 0 or parent's + 1, and its cache wraps every value of that dict, key by key, with the node as parent; every child it creates is fresh, valid and has a well-formed parent chain |
| Core.SequenceNode.constructor | metalib/core.py:172-186 | the same for a list, index by index |
| Core.TransformValue | metalib/core.py:17-36 | an existing node is returned as it is; a string becomes a scalar node, never split; a dict becomes a mapping node and a list a sequence node over that very container; anything else becomes a scalar node; every created node is fresh, valid and has the given parent |
| Core.WrapsReadsAs | metalib/core.py:132-139 | reading a wrapped child returns a scalar's value unwrapped and a collection as the live node |
| Core.MappingNode.CacheAgrees | metalib/core.py:132-139 | on a valid node, the cache holds a key exactly when the backing dict does, and the cached child reads as the backing value |
| Core.MappingNode.Get | metalib/core.py:132-139 | `node[key]` succeeds exactly for the keys of the backing dict, returns a scalar unwrapped and a dict or list as a live node over that very container, and otherwise raises KeyError |
| Core.MappingNode.Len | metalib/core.py:148-149 | `len(node)` counts the cache, which on a valid node equals the length of the backing dict |
| Core.MappingNode.Iter | metalib/core.py:145-146 | iteration gives the cache's keys, which on a valid node are the backing dict's keys in its order |
| Core.SyncedDictGet | metalib/core.py:132-139 | when a cache is in step with a dict, they hold the same keys and each cached child wraps the dict's value |
| Core.SyncedDictPut | metalib/core.py:141-143 | writing a key into the dict and its wrap into the cache keeps the two in step |
| Core.SyncedDictRemove | metalib/core.py:151-153 | deleting a key from both keeps them in step |
| Core.MappingNode.Set | metalib/core.py:141-143 | `node[key] = value` does the dict write on the backing dict, then caches at `key` a fresh, valid wrap of `value` with this node as parent; every other key keeps its cached child, and the node stays valid |
| Core.MappingNode.Delete | metalib/core.py:151-153 | `del node[key]` raises KeyError and changes nothing for a missing key; otherwise it removes the key from the backing dict and the cache alike, keeping the node valid |
| Core.Position | metalib/core.py:188-198 | an index is usable exactly when it is an int in `-n..n-1`. It names the slot congruent to it modulo `n`. A slice gives NotImplementedError, another index type TypeError, and an int out of range IndexError |
| Core.InsertPosition | metalib/core.py:230-233 | `insert` accepts only an int; a negative index counts from the end and the slot is clamped into `0..n` |
| Core.SequenceNode.Get | metalib/core.py:188-198 | `node[index]` fails as `Position` says, and otherwise returns the backing item unwrapped if scalar or as a live node over that very container |
| Core.SequenceNode.Len | metalib/core.py:227-228 | `len(node)` equals the backing list's length on a valid node |
| Core.SequenceNode.Set | metalib/core.py:200-212 | for a usable index, writes the backing slot and caches a fresh wrap there; for any other index, returns the error and changes nothing; the node stays valid |
| Core.SequenceNode.Delete | metalib/core.py:214-222 | removes the same slot from the backing list and the cache, later items moving down by one; errors change nothing |
| Core.SequenceNode.Insert | metalib/core.py:230-233 | inserts the value into the backing list and a fresh wrap into the cache at the same clamped slot, later items moving up by one; a non-int index gives TypeError and changes nothing |
| Core.WrapsReadsAsIfValid | metalib/core.py:192-196 | on a valid sequence node, the cached child at an index reads as the backing item |
| Core.Ancestors | metalib/core.py:38-47 | the parent chain of a node, nearest first: each entry's parent is the next, the last is a root, and levels fall by one per step |
| Core.InstanceDict | metalib/core.py:9-14 | a node's instance attributes include `_parent` (None at a root) and `_level` |
| Core.RootIffLevelZero | metalib/core.py:11-14 | on a well-formed parent chain, `_parent` is None exactly when `_level` is 0 |
| Core.Own | metalib/core.py:155-161 | a mapping node answers its own keys first, with the read value; failing that, a node answers exactly the names in its instance attributes |
| Core.Lookup | metalib/core.py:38-47 | `__getattr__` fails only with AttributeError naming the attribute |
| Core.LookupFindsAny | metalib/core.py:38-47 | lookup succeeds exactly when some node on the parent chain holds the name itself |
| Core.LookupHasHolder | metalib/core.py:42-44 | a successful lookup found the name at some node of the chain |
| Core.LookupReachesHolder | metalib/core.py:42-44 | if some node of the chain holds the name, lookup succeeds |
| Core.LookupIsNearest | metalib/core.py:155-161 | lookup returns the answer of the nearest node that holds the name, so a local key shadows an ancestor's |
| Core.OwnKeyWins | metalib/core.py:155-158 | on a valid mapping node, `node.key` for one of its own keys equals `node[key]` |
| Core.ChildDefersToParent | metalib/core.py:155-161 | a child built from a dict or list has this node as parent, level + 1, and a well-formed chain, and a name it does not hold itself is looked up in this node |
| Core.SetNested | metalib/core.py:132-143 | `node[k1][k2] = value` on a nested mapping lands in the very dict the caller's data holds under `k1`; the outer dict and cache are unchanged |
| Core.NestedWriteThrough | tests/core/test_mutable_mapping_node.py:35-45 | on a tree just built over `{"a": {"a_a": "test", "a_b": 3}, "b": 1}`, `node["a"]["a_a"]` reads "test", and after `node["a"]["a_a"] = "passed"` the caller's own dict holds "passed" there |
| Core.FromObj | metalib/core.py:259-264 | a dict gives a mapping root and a list a sequence root, fresh, valid and at level 0; anything else, a string included, gives ValueError |
| Core.Concat | metalib/core.py:267-273 | a node comes back as the same node; a list becomes a fresh parentless sequence node over that list, at level 0 with a well-formed chain, whose children at node positions are those very nodes |
| Nodes.Level | metalib/_nodes.py:8-11 | no contract of its own: `level` is the number of ancestors, 0 at the root; `Nodes.Parent` states its relation to the parent |
| Nodes.Parent | metalib/_nodes.py:5-11 | a node has no parent exactly at level 0, and a parent's level is one less |
| Nodes.Transform | metalib/_nodes.py:14-26 | a dict becomes a dict node with the same keys and a list a list node of the same length; anything else, nodes and strings included, is stored as it is |
| Nodes.UnwrapTransform | metalib/_nodes.py:14-26 | unwrapping the transformed value gives the input back, for every value |
| Nodes.NewDictNode | metalib/_nodes.py:63-74 | a dict node has exactly the input's keys, in order, and unwraps to the input |
| Nodes.NewListNode | metalib/_nodes.py:96-102 | a list node has the input's length and unwraps to the input |
| Nodes.Expose | metalib/_nodes.py:78-80 | a raw slot is handed out as it is; a child node comes out located under this node, with this node as parent and level + 1 |
| Nodes.InstanceDict | metalib/_nodes.py:5-11 | the instance attributes are exactly `parent` (None at the root) and `level` |
| Nodes.Own | metalib/_nodes.py:76-82 | a dict node answers its own keys first; otherwise a node, a list node included, answers only `parent` and `level` |
| Nodes.Lookup | metalib/_nodes.py:76-88 | `__getattr__` fails only with AttributeError naming the attribute |
| Nodes.Ancestors | metalib/_nodes.py:83-85 | the parent chain, nearest first, ending at the root |
| Nodes.LookupFindsAny | metalib/_nodes.py:104-112 | lookup succeeds exactly when some node on the parent chain holds the name |
| Nodes.LookupHasHolder | metalib/_nodes.py:83-85 | a successful lookup found the name at some node of the chain |
| Nodes.LookupReachesHolder | metalib/_nodes.py:107-109 | if some node of the chain holds the name, lookup succeeds |
| Nodes.LookupIsNearest | metalib/_nodes.py:76-88 | lookup returns the nearest holder's answer: the nearest ancestor key wins |
| Nodes.Has | metalib/_nodes.py:31-36 | `has(name)` is true exactly when some node on the parent chain holds the name |
| Wrappers.Collect | metalib/_nodes.py:41-42 | a comprehension over results succeeds exactly when every item does, with the values in order; otherwise it fails with the first item's exception |
| Nodes.GetAll | metalib/_nodes.py:41-42 | a list of names gives the lookups in the same order and length, or fails with the AttributeError of the first missing name, never a partial list |
| Nodes.Get | metalib/_nodes.py:38-44 | a string gives one lookup, a list gives the list of lookups, and anything else ValueError |
| Nodes.NodeValuesMembers | metalib/_nodes.py:114-117 | the kept items are exactly the nodes |
| Nodes.NodeValuesAppend | metalib/_nodes.py:90-93 | the kept items stay in storage order |
| Nodes.ChildNodes | metalib/_nodes.py:90-93 | `get_child_nodes` yields the node-valued items the node hands out, in storage order |
| Nodes.ChildrenAreNodeValues | metalib/_nodes.py:114-117 | the same, slot by slot |
| Nodes.Test | metalib/_nodes.py:56-60 | a node is yielded exactly when the predicate returns True; the run ends only for an exception other than AttributeError |
| Nodes.ThenAssoc | metalib/_nodes.py:51-53 | grouping does not matter when runs are combined |
| Nodes.ScanAppend | metalib/_nodes.py:51-60 | scanning a concatenation is scanning each part in turn |
| Nodes.Query | metalib/_nodes.py:46-60 | no contract of its own: `query(predicate)` as a run of yielded nodes and the exception that ended it; `Nodes.QueryIsScan` states what it computes |
| Nodes.QueryIsScan | metalib/_nodes.py:46-60 | `query` tests every descendant in depth-first post-order: each child's descendants, then the child, siblings left to right |
| Nodes.DescendantsLower | metalib/_nodes.py:51-53 | every node `query` reaches lies strictly lower in the tree than the node it was called on |
| Nodes.NotOwnDescendant | metalib/_nodes.py:51-58 | `query` never tests or yields the node it is called on |
| Nodes.ScanFilters | metalib/_nodes.py:56-60 | when the predicate raises nothing but AttributeError, the run ends normally and yields exactly the accepted nodes in order |
| Nodes.ScanStopsAtError | metalib/_nodes.py:56-60 | the first exception other than AttributeError ends the run after yielding the nodes accepted before it |
| Metalib.Iterate | metalib/__init__.py:33-34 | what iteration visits: a list's items, a string's one-character strings; only scalars are not iterable |
| Metalib.AsDict | metalib/__init__.py:31-32 | a value is a dict exactly when it is a dict or a dict node; a dict node shows its own keys |
| Metalib.FromObj | metalib/__init__.py:31-36 | a dict gives a dict-node root with the same keys that unwraps to the input; a dict node, itself a dict, gives a dict-node root with its keys; any other iterable gives a list-node root over its items; only a non-iterable gives ValueError; the root has no parent and level 0 |
| Metalib.Concat | metalib/__init__.py:58-64 | a node is returned as the same node; a list becomes a parentless list node of the same length whose node items are the very nodes, keeping their own parent and level |
| Metalib.ExposedCopy | metalib/__init__.py:63-64 | a list node built from values that need no wrapping hands each back unchanged; a dict or list item comes back as a child that unwraps to it |
| Metalib.Listed | metalib/__init__.py:77-84 | no contract of its own: a single string given as include or exclude keys counts as one key, not as its characters; `Metalib.ColumnKeys` states the keys that result |
| Metalib.ColumnKeys | metalib/__init__.py:70-84 | a key is a column exactly when it is a key of some dataset that is a dict node or is included, and is not excluded, so exclusion wins over inclusion |
| Metalib.Rows | metalib/__init__.py:87 | each dataset's row is its `get` of the columns in column order; the first dataset missing a column ends it with that error |
| Metalib.TableData | metalib/__init__.py:85-87 | the column list holds each selected key exactly once, in some order, and the rows follow that order |

## Left out

- `metalib/_yaml.py`, `from_yaml` and `_add_metadata_filename`: file I/O and YAML representers. Attributes
  attached to a node after construction, such as `_filename`, are therefore not in the copying tree's
  instance attributes.
- The pandas `DataFrame` call in `to_dataframe`: the model stops at the column list and the rows.
- `has_param`, `get_param` and `query` in `metalib/core.py`: each raises NotImplementedError before doing
  anything.
- `_iter_nodes_` in `metalib/core.py` is not modelled:
  - the mapping and sequence nodes' versions raise NotImplementedError;
  - the scalar node's version yields nothing;
  - the abstract base version does nothing.
- The `print('Test')` in the sequence node's `__delitem__`: a side effect only.
- `__repr__`.
- Python's attribute machinery: `Lookup` models the `__getattr__` chain that the source calls explicitly.
  Normal attribute lookup, which finds class attributes and instance attributes before `__getattr__`
  runs, is not modelled. The mixin methods of `MutableMapping` / `MutableSequence` (`values`, `pop`,
  `append` and others) are not modelled either.
- Core.InstanceDict: leaves out `_child_nodes`, because the cache is not a value a `Raw` can hold. In the
  source, `node.__getattr__('_child_nodes')` returns the node's own cache. In the model, `Lookup` asks
  the ancestors for that name instead, and fails with AttributeError unless one of them holds it as a
  key. Attributes set on a core node after construction are not modelled either.
- Core.FromObj: requires that the argument is not itself a node. In the source, such an argument is
  handled as follows, and the model does not cover it, because its raw dicts and lists are not nodes:
  - a mapping node becomes the backing mapping of a new mapping node;
  - a sequence node becomes the backing list of a new sequence node (`metalib/core.py:261-262`);
  - a scalar node gives ValueError.
- Core.Concat: requires a node or a raw list, as the parameter's annotation says. Other arguments are not
  modelled.
- Core.MappingNode.Set, Core.SequenceNode.Set, Core.SequenceNode.Insert, Core.TransformValue and the
  constructors: require the value to be a finite tree of raw containers that does not contain this node's
  own backing container. Python's recursion limit is not modelled. In the source, a cyclic value, or
  an acyclic one deeper than that limit, raises RecursionError. In the mutators, the `_ref` write has
  already happened by then (`metalib/core.py:142-143`, `208-210`, `231-233`), so the backing container
  holds the new value while `_child_nodes` does not. The model accepts any finite depth.
- A raw container shared by two nodes: a write through one node leaves the other node's cache stale.
  The model shows this, because `Valid()` speaks of one node, but no lemma is stated about it.
- A node object placed under two parents (the pass-through of an existing node) is kept as the same
  object, and its parent is not changed. No statement is made about such a node's own cache.
- Core.MappingNode.Set, the other mutators and the constructors promise validity for the node and for
  each child they create, but not for grandchildren. No invariant over the whole tree is kept, so
  `SetNested` requires the child it writes through to be valid. The constructors provide this on a tree
  just built, as `NestedWriteThrough` shows.
- Dict keys are strings. A Python dict may have other hashable keys.
- Numbers, booleans, floats and other scalars are opaque values compared only for equality (`Atom`). An
  opaque scalar is treated as not iterable.
- The query predicate is a total function from a node to True, False or an exception. Side effects of
  the predicate are not modelled.
- The base `MetadataNode` of `metalib/_nodes.py`, and so its empty `get_child_nodes`, is not modelled.
  The library never builds one. `tests/test_transform_value.py` builds one only to call
  `_transform_value`, and that test's first import, of names `metalib/core.py` does not define, fails.
- Metalib.TableData: `list(keys)` orders a Python set by hash. The model leaves the order unspecified and
  states only that each key appears once.
