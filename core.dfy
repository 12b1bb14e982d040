/** The write-through metadata tree of metalib/core.py.

    A mapping or sequence node keeps a reference to the caller's own raw container and a
    parallel cache of wrapped children.  Every write goes to both, so a change made through
    a node, however deeply nested, is visible in the raw data the tree was built from.
    Raw containers are heap objects here, so that this sharing is modelled and not assumed. */
module Core {
  import opened Wrappers
  import opened PyTypes
  import opened PyDict

  /** A raw `dict` owned by the caller, with string keys. */
  class RawDict {
    var entries: Dict<Raw>

    constructor (entries: Dict<Raw>)
      ensures this.entries == entries
    {
      this.entries := entries;
    }
  }

  /** A raw `list` owned by the caller. */
  class RawList {
    var items: seq<Raw>

    constructor (items: seq<Raw>)
      ensures this.items == items
    {
      this.items := items;
    }
  }

  /** Any value that can be stored in a raw container or handed to a node. */
  datatype Raw =
    | RDict(d: RawDict)
    | RList(l: RawList)
    | RStr(s: string)
    | RAtom(a: Atom)
    | RNode(n: NodeRef)

  /** A reference to a node of one of the three kinds. */
  datatype NodeRef = ScalarRef(s: ScalarNode) | MappingRef(m: MappingNode) | SequenceRef(q: SequenceNode)
  {
    /** `_parent` */
    function Parent(): Option<NodeRef> {
      match this
      case ScalarRef(s) => s.parent
      case MappingRef(m) => m.parent
      case SequenceRef(q) => q.parent
    }

    /** `_level` */
    function Level(): nat {
      match this
      case ScalarRef(s) => s.level
      case MappingRef(m) => m.level
      case SequenceRef(q) => q.level
    }

    /** The node object itself. */
    ghost function Obj(): object {
      match this
      case ScalarRef(s) => s
      case MappingRef(m) => m
      case SequenceRef(q) => q
    }

    /** The objects whose fields the node's invariant depends on. */
    ghost function Footprint(): set<object> {
      match this
      case ScalarRef(s) => {s}
      case MappingRef(m) => {m, m.ref}
      case SequenceRef(q) => {q, q.ref}
    }

    /** The node's cache wraps its backing container. */
    ghost predicate Valid()
      reads Footprint()
    {
      match this
      case ScalarRef(_) => true
      case MappingRef(m) => m.Valid()
      case SequenceRef(q) => q.Valid()
    }
  }

  /** The level of a node created under `parent`. */
  function LevelUnder(parent: Option<NodeRef>): nat {
    if parent.None? then 0 else parent.value.Level() + 1
  }

  /** `c` is what `_transform_value(parent, r)` makes of `r`: the very node for a node; a
      mapping node over the same dict for a dict; a sequence node over the same list for a
      list; and a scalar node holding the value for anything else, a string included. */
  ghost predicate Wraps(c: NodeRef, r: Raw, parent: Option<NodeRef>) {
    match r
    case RNode(n) => c == n
    case RDict(d) =>
      c.MappingRef? && c.m.ref == d && c.m.parent == parent && c.m.level == LevelUnder(parent)
    case RList(l) =>
      c.SequenceRef? && c.q.ref == l && c.q.parent == parent && c.q.level == LevelUnder(parent)
    case _ =>
      c.ScalarRef? && c.s.value == r && c.s.parent == parent && c.s.level == LevelUnder(parent)
  }

  /** What `node[key]` hands back for a cached child: a scalar node's value, or the node. */
  function Read(c: NodeRef): Raw {
    match c
    case ScalarRef(s) => s.value
    case _ => RNode(c)
  }

  /** `out` is what reading a slot whose raw value is `r` gives, stated on the raw value:
      a string or other scalar comes back as itself, a dict or list as a live node over that
      very container with `parent` as its parent, and a stored node as itself (or, for a
      scalar node, its value). */
  ghost predicate ReadsAs(out: Raw, r: Raw, parent: Option<NodeRef>) {
    match r
    case RNode(n) => if n.ScalarRef? then out == n.s.value else out == r
    case RDict(d) => out.RNode? && out.n.MappingRef? && out.n.m.ref == d && out.n.m.parent == parent
    case RList(l) => out.RNode? && out.n.SequenceRef? && out.n.q.ref == l && out.n.q.parent == parent
    case _ => out == r
  }

  /** Reading a wrapped child gives back the raw value it wraps, in the sense of `ReadsAs`. */
  lemma WrapsReadsAs(c: NodeRef, r: Raw, parent: Option<NodeRef>)
    requires Wraps(c, r, parent)
    ensures ReadsAs(Read(c), r, parent)
  {
  }

  /** The raw containers a value may reach, and a bound on its depth: construction recurses
      once per level, so a value that is not a finite tree is outside the model. */
  datatype Region = Region(dicts: set<RawDict>, lists: set<RawList>)

  /** `v` is a tree of height below `h` whose containers all lie in `region`. */
  ghost predicate RawTree(v: Raw, h: nat, region: Region)
    reads region.dicts, region.lists
    decreases h
  {
    match v
    case RDict(d) =>
      && d in region.dicts && h > 0 && d.entries.Valid()
      && forall i | 0 <= i < |d.entries.entries| :: RawTree(d.entries.entries[i].1, h - 1, region)
    case RList(l) =>
      && l in region.lists && h > 0
      && forall i | 0 <= i < |l.items| :: RawTree(l.items[i], h - 1, region)
    case _ => true
  }

  /** A mapping node's cache `cs` wraps its backing dict `rs` entry by entry, in the same
      key order. */
  ghost predicate SyncedDict(cs: Dict<NodeRef>, rs: Dict<Raw>, parent: Option<NodeRef>) {
    && cs.Keys() == rs.Keys()
    && |cs.entries| == |rs.entries|
    && forall i | 0 <= i < |cs.entries| :: Wraps(cs.entries[i].1, rs.entries[i].1, parent)
  }

  /** A sequence node's cache `cs` wraps its backing list `rs` index by index. */
  ghost predicate SyncedList(cs: seq<NodeRef>, rs: seq<Raw>, parent: Option<NodeRef>) {
    && |cs| == |rs|
    && forall i | 0 <= i < |cs| :: Wraps(cs[i], rs[i], parent)
  }

  /** A key is in the cache exactly when it is in the backing dict, and its cached child
      wraps the backing value. */
  lemma SyncedDictGet(cs: Dict<NodeRef>, rs: Dict<Raw>, parent: Option<NodeRef>, k: string)
    requires SyncedDict(cs, rs, parent)
    ensures cs.Has(k) <==> rs.Has(k)
    ensures rs.Has(k) ==> Wraps(cs.Get(k), rs.Get(k), parent)
  {
    SameKeysSameFind(cs, rs, k);
  }

  /** Writing a key into the backing dict and its wrap into the cache keeps them in step. */
  lemma SyncedDictPut(cs: Dict<NodeRef>, rs: Dict<Raw>, parent: Option<NodeRef>, k: string, c: NodeRef, v: Raw)
    requires rs.Valid() && SyncedDict(cs, rs, parent) && Wraps(c, v, parent)
    ensures cs.Valid()
    ensures SyncedDict(cs.Put(k, c), rs.Put(k, v), parent)
  {
    SameKeysValid(cs, rs);
    SameKeysSameFind(cs, rs, k);
    var cs', rs' := cs.Put(k, c), rs.Put(k, v);
    match rs.Find(k)
    case Some(i) =>
      assert cs'.entries == cs.entries[i := (k, c)];
      assert rs'.entries == rs.entries[i := (k, v)];
    case None =>
      assert cs'.entries == cs.entries + [(k, c)];
      assert rs'.entries == rs.entries + [(k, v)];
  }

  /** Deleting a key from both keeps them in step. */
  lemma SyncedDictRemove(cs: Dict<NodeRef>, rs: Dict<Raw>, parent: Option<NodeRef>, k: string)
    requires rs.Valid() && rs.Has(k) && SyncedDict(cs, rs, parent)
    ensures cs.Valid() && cs.Has(k)
    ensures SyncedDict(cs.Remove(k), rs.Remove(k), parent)
  {
    SameKeysValid(cs, rs);
    SameKeysSameFind(cs, rs, k);
    var i := rs.Find(k).value;
    var cs', rs' := cs.Remove(k), rs.Remove(k);
    assert cs'.entries == cs.entries[..i] + cs.entries[i + 1..];
    assert rs'.entries == rs.entries[..i] + rs.entries[i + 1..];
    forall j | 0 <= j < |cs'.entries| ensures Wraps(cs'.entries[j].1, rs'.entries[j].1, parent) {
      if j < i {
        assert cs'.entries[j] == cs.entries[j] && rs'.entries[j] == rs.entries[j];
      } else {
        assert cs'.entries[j] == cs.entries[j + 1] && rs'.entries[j] == rs.entries[j + 1];
      }
    }
  }

  /** `MetadataScalarNode`: a leaf that holds one value. */
  class ScalarNode {
    const parent: Option<NodeRef>
    const level: nat
    const value: Raw

    /** `MetadataScalarNode(parent, value)` */
    constructor (parent: Option<NodeRef>, value: Raw)
      requires parent.Some? ==> ChainOk(parent.value)
      ensures this.parent == parent && level == LevelUnder(parent) && this.value == value
      ensures ChainOk(ScalarRef(this))
    {
      this.parent := parent;
      level := LevelUnder(parent);
      this.value := value;
    }
  }

  /** `MetadataMutableMappingNode`: a node over a raw dict. */
  class MappingNode {
    const parent: Option<NodeRef>
    const level: nat
    /** `_ref`: the raw dict this node writes through to. */
    const ref: RawDict
    /** `_child_nodes`: the wrapped children, key by key. */
    var children: Dict<NodeRef>

    /** The cache wraps the backing dict, each child having this node as parent. */
    ghost predicate Valid()
      reads this, ref
    {
      ref.entries.Valid() && SyncedDict(children, ref.entries, Some(MappingRef(this)))
    }

    /** `MetadataMutableMappingNode(parent, mapping)`: wraps every value of `mapping`, in
        its iteration order. */
    constructor (parent: Option<NodeRef>, mapping: RawDict, ghost h: nat, ghost region: Region)
      requires RawTree(RDict(mapping), h, region)
      requires parent.Some? ==> ChainOk(parent.value)
      ensures this.parent == parent && level == LevelUnder(parent) && ref == mapping
      ensures ChainOk(MappingRef(this))
      ensures Valid()
      ensures forall i | 0 <= i < |children.entries| && !ref.entries.entries[i].1.RNode? ::
        fresh(children.entries[i].1.Obj()) && children.entries[i].1.Valid() && ChainOk(children.entries[i].1)
      decreases h, 0
    {
      this.parent := parent;
      level := LevelUnder(parent);
      ref := mapping;
      children := Dict([]);
      new;
      var es := mapping.entries.entries;
      var acc: seq<(string, NodeRef)> := [];
      var i := 0;
      while i < |es|
        invariant 0 <= i <= |es| && |acc| == i
        invariant forall j | 0 <= j < i :: acc[j].0 == es[j].0
        invariant forall j | 0 <= j < i :: Wraps(acc[j].1, es[j].1, Some(MappingRef(this)))
        invariant forall j | 0 <= j < i && !es[j].1.RNode? ::
          fresh(acc[j].1.Obj()) && acc[j].1.Valid() && ChainOk(acc[j].1)
      {
        var c := TransformValue(Some(MappingRef(this)), es[i].1, h - 1, region);
        acc := acc + [(es[i].0, c)];
        i := i + 1;
      }
      children := Dict(acc);
      assert children.Keys() == ref.entries.Keys();
    }

    /** `node[key]`: the unwrapped value of a scalar child, the child node of a collection,
        and KeyError for a key the node does not hold. */
    function Get(key: string): (r: Result<Raw, Exc>)
      reads this, ref
      ensures r.Failure? ==> r.error == KeyError
      ensures Valid() ==> (r.Success? <==> ref.entries.Has(key))
      ensures Valid() && r.Success? ==> ReadsAs(r.value, ref.entries.Get(key), Some(MappingRef(this)))
    {
      CacheAgrees(key);
      if children.Has(key) then
        Success(Read(children.Get(key)))
      else
        Failure(KeyError)
    }

    /** The cache holds a key exactly when the backing dict does, wrapping its value. */
    lemma CacheAgrees(key: string)
      ensures Valid() ==> (children.Has(key) <==> ref.entries.Has(key))
      ensures Valid() && ref.entries.Has(key) ==>
        ReadsAs(Read(children.Get(key)), ref.entries.Get(key), Some(MappingRef(this)))
    {
      if Valid() {
        SyncedDictGet(children, ref.entries, Some(MappingRef(this)), key);
        if ref.entries.Has(key) {
          WrapsReadsAs(children.Get(key), ref.entries.Get(key), Some(MappingRef(this)));
        }
      }
    }

    /** `len(node)`: counts the cache, which has as many entries as the backing dict. */
    function Len(): (r: nat)
      reads this, ref
      ensures Valid() ==> r == ref.entries.Len()
    {
      children.Len()
    }

    /** `iter(node)`: the cache's keys, which are the backing dict's keys in its order. */
    function Iter(): (r: seq<string>)
      reads this, ref
      ensures Valid() ==> r == ref.entries.Keys()
    {
      children.Keys()
    }

    /** `node[key] = value`: writes `value` into the backing dict first, then caches a fresh
        wrap of it with this node as parent.  Every other key keeps its cached child. */
    method Set(key: string, value: Raw, ghost h: nat, ghost region: Region)
      requires Valid()
      requires RawTree(value, h, region) && ref !in region.dicts
      requires ChainOk(MappingRef(this))
      modifies this, ref
      ensures ref.entries == old(ref.entries).Put(key, value)
      ensures Valid()
      ensures children.Has(key) && children == old(children).Put(key, children.Get(key))
      ensures Wraps(children.Get(key), value, Some(MappingRef(this)))
      ensures !value.RNode? ==> fresh(children.Get(key).Obj()) && children.Get(key).Valid()
      ensures !value.RNode? ==> ChainOk(children.Get(key))
    {
      ref.entries := ref.entries.Put(key, value);
      var c := TransformValue(Some(MappingRef(this)), value, h, region);
      SyncedDictPut(children, old(ref.entries), Some(MappingRef(this)), key, c, value);
      children := children.Put(key, c);
    }

    /** `del node[key]`: KeyError with nothing changed for a missing key; otherwise the key
        goes from the backing dict and from the cache, the rest keeping their order. */
    method Delete(key: string) returns (o: Outcome<Exc>)
      requires Valid()
      modifies this, ref
      ensures o == if old(ref.entries).Has(key) then Pass else Fail(KeyError)
      ensures o.Fail? ==> ref.entries == old(ref.entries) && children == old(children)
      ensures o.Pass? ==> old(children).Valid() && old(children).Has(key)
      ensures o.Pass? ==> ref.entries == old(ref.entries).Remove(key)
      ensures o.Pass? ==> children == old(children).Remove(key)
      ensures Valid()
    {
      if !ref.entries.Has(key) {
        return Fail(KeyError);
      }
      SyncedDictRemove(children, ref.entries, Some(MappingRef(this)), key);
      ref.entries := ref.entries.Remove(key);
      children := children.Remove(key);
      return Pass;
    }
  }

  /** An index handed to a sequence node: an int, a slice, or anything else. */
  datatype Index = AtIndex(i: int) | SliceIndex | OtherIndex

  /** The slot a `list` index names in a list of length `n`, negative indices counting from
      the end; slices and non-int indices are refused first, as the sequence node does. */
  function Position(index: Index, n: nat): (r: Result<nat, Exc>)
    ensures r.Success? <==> index.AtIndex? && 0 <= index.i + n && index.i < n
    ensures r.Success? ==> r.value < n && (r.value - index.i) % n == 0
    ensures index.SliceIndex? ==> r == Failure(NotImplementedError)
    ensures index.OtherIndex? ==> r == Failure(TypeError)
    ensures index.AtIndex? && r.Failure? ==> r.error == IndexError
  {
    match index
    case SliceIndex => Failure(NotImplementedError)
    case OtherIndex => Failure(TypeError)
    case AtIndex(i) =>
      var j := if i < 0 then i + n else i;
      if 0 <= j < n then Success(j) else Failure(IndexError)
  }

  /** The slot `list.insert(index, v)` inserts at in a list of length `n`: a negative index
      counts from the end and the result is clamped into `0..n`.  `insert` takes only an int. */
  function InsertPosition(index: Index, n: nat): (r: Result<nat, Exc>)
    ensures r.Success? <==> index.AtIndex?
    ensures r.Failure? ==> r.error == TypeError
    ensures r.Success? ==> r.value <= n
    ensures r.Success? && 0 <= index.i <= n ==> r.value == index.i
    ensures r.Success? && 0 <= index.i + n && index.i < 0 ==> r.value == index.i + n
    ensures r.Success? && index.i + n < 0 ==> r.value == 0
    ensures r.Success? && index.i > n ==> r.value == n
  {
    match index
    case AtIndex(i) =>
      var j := if i < 0 then i + n else i;
      Success(if j < 0 then 0 else if j > n then n else j)
    case _ => Failure(TypeError)
  }

  /** `MetadataMutableSequenceNode`: a node over a raw list. */
  class SequenceNode {
    const parent: Option<NodeRef>
    const level: nat
    /** `_ref`: the raw list this node writes through to. */
    const ref: RawList
    /** `_child_nodes`: the wrapped children, index by index. */
    var children: seq<NodeRef>

    /** The cache wraps the backing list, each child having this node as parent. */
    ghost predicate Valid()
      reads this, ref
    {
      SyncedList(children, ref.items, Some(SequenceRef(this)))
    }

    /** `MetadataMutableSequenceNode(parent, sequence)`: wraps every item, in order. */
    constructor (parent: Option<NodeRef>, sequence: RawList, ghost h: nat, ghost region: Region)
      requires RawTree(RList(sequence), h, region)
      requires parent.Some? ==> ChainOk(parent.value)
      ensures this.parent == parent && level == LevelUnder(parent) && ref == sequence
      ensures ChainOk(SequenceRef(this))
      ensures Valid()
      ensures forall i | 0 <= i < |children| && !ref.items[i].RNode? ::
        fresh(children[i].Obj()) && children[i].Valid() && ChainOk(children[i])
      decreases h, 0
    {
      this.parent := parent;
      level := LevelUnder(parent);
      ref := sequence;
      children := [];
      new;
      var xs := sequence.items;
      var acc: seq<NodeRef> := [];
      var i := 0;
      while i < |xs|
        invariant 0 <= i <= |xs| && |acc| == i
        invariant forall j | 0 <= j < i :: Wraps(acc[j], xs[j], Some(SequenceRef(this)))
        invariant forall j | 0 <= j < i && !xs[j].RNode? ::
          fresh(acc[j].Obj()) && acc[j].Valid() && ChainOk(acc[j])
      {
        var c := TransformValue(Some(SequenceRef(this)), xs[i], h - 1, region);
        acc := acc + [c];
        i := i + 1;
      }
      children := acc;
    }

    /** `node[index]`: the unwrapped value of a scalar child or the child node of a
        collection; NotImplementedError for a slice, TypeError for another index type and
        IndexError outside the list. */
    function Get(index: Index): (r: Result<Raw, Exc>)
      reads this, ref
      ensures Valid() ==> match Position(index, |ref.items|)
        case Failure(e) => r == Failure(e)
        case Success(j) => r.Success? && ReadsAs(r.value, ref.items[j], Some(SequenceRef(this)))
    {
      match Position(index, |children|)
      case Failure(e) => Failure(e)
      case Success(j) =>
        var c := children[j];
        WrapsReadsAsIfValid(this, j);
        Success(Read(c))
    }

    /** `len(node)`: counts the cache, as long as the backing list. */
    function Len(): (r: nat)
      reads this, ref
      ensures Valid() ==> r == |ref.items|
    {
      |children|
    }

    /** `node[index] = value`: the backing list slot first, then a fresh wrap in the cache. */
    method Set(index: Index, value: Raw, ghost h: nat, ghost region: Region) returns (o: Outcome<Exc>)
      requires Valid()
      requires RawTree(value, h, region) && ref !in region.lists
      requires ChainOk(SequenceRef(this))
      modifies this, ref
      ensures Valid()
      ensures match Position(index, |old(ref.items)|)
        case Failure(e) => o == Fail(e) && ref.items == old(ref.items) && children == old(children)
        case Success(j) =>
          && o == Pass
          && ref.items == old(ref.items)[j := value]
          && children == old(children)[j := children[j]]
          && Wraps(children[j], value, Some(SequenceRef(this)))
          && (!value.RNode? ==> fresh(children[j].Obj()) && children[j].Valid())
    {
      match Position(index, |ref.items|)
      case Failure(e) =>
        return Fail(e);
      case Success(j) =>
        ref.items := ref.items[j := value];
        var c := TransformValue(Some(SequenceRef(this)), value, h, region);
        children := children[j := c];
        return Pass;
    }

    /** `del node[index]`: removes the slot from the backing list and from the cache, later
        items moving down by one. */
    method Delete(index: Index) returns (o: Outcome<Exc>)
      requires Valid()
      modifies this, ref
      ensures Valid()
      ensures match Position(index, |old(ref.items)|)
        case Failure(e) => o == Fail(e) && ref.items == old(ref.items) && children == old(children)
        case Success(j) =>
          && o == Pass
          && ref.items == old(ref.items)[..j] + old(ref.items)[j + 1..]
          && children == old(children)[..j] + old(children)[j + 1..]
    {
      match Position(index, |ref.items|)
      case Failure(e) =>
        return Fail(e);
      case Success(j) =>
        ref.items := ref.items[..j] + ref.items[j + 1..];
        children := children[..j] + children[j + 1..];
        return Pass;
    }

    /** `node.insert(index, value)`: inserts into the backing list and a fresh wrap into the
        cache at the same clamped slot, later items moving up by one. */
    method Insert(index: Index, value: Raw, ghost h: nat, ghost region: Region) returns (o: Outcome<Exc>)
      requires Valid()
      requires RawTree(value, h, region) && ref !in region.lists
      requires ChainOk(SequenceRef(this))
      modifies this, ref
      ensures Valid()
      ensures match InsertPosition(index, |old(ref.items)|)
        case Failure(e) => o == Fail(e) && ref.items == old(ref.items) && children == old(children)
        case Success(j) =>
          && o == Pass
          && ref.items == old(ref.items)[..j] + [value] + old(ref.items)[j..]
          && children == old(children)[..j] + [children[j]] + old(children)[j..]
          && Wraps(children[j], value, Some(SequenceRef(this)))
          && (!value.RNode? ==> fresh(children[j].Obj()) && children[j].Valid())
    {
      match InsertPosition(index, |ref.items|)
      case Failure(e) =>
        return Fail(e);
      case Success(j) =>
        ref.items := ref.items[..j] + [value] + ref.items[j..];
        var c := TransformValue(Some(SequenceRef(this)), value, h, region);
        children := children[..j] + [c] + children[j..];
        return Pass;
    }
  }

  /** The cached child at `j` of a valid sequence node reads as the backing item. */
  lemma WrapsReadsAsIfValid(q: SequenceNode, j: nat)
    requires j < |q.children|
    ensures q.Valid() ==> ReadsAs(Read(q.children[j]), q.ref.items[j], Some(SequenceRef(q)))
  {
    if q.Valid() {
      WrapsReadsAs(q.children[j], q.ref.items[j], Some(SequenceRef(q)));
    }
  }

  /** `MetadataNode._transform_value(parent, value)`: a node is returned as it is; a string
      becomes a scalar node (it is never split into characters); a dict becomes a mapping
      node and a list a sequence node over that very container; anything else becomes a
      scalar node.  Every node it creates is fresh, has `parent` as parent and is valid. */
  method TransformValue(parent: Option<NodeRef>, value: Raw, ghost h: nat, ghost region: Region)
    returns (c: NodeRef)
    requires RawTree(value, h, region)
    requires parent.Some? ==> ChainOk(parent.value)
    ensures Wraps(c, value, parent)
    ensures !value.RNode? ==> fresh(c.Obj()) && c.Valid() && ChainOk(c)
    decreases h, 1
  {
    match value
    case RNode(n) =>
      c := n;
    case RStr(_) =>
      var s := new ScalarNode(parent, value);
      c := ScalarRef(s);
    case RDict(d) =>
      var m := new MappingNode(parent, d, h, region);
      c := MappingRef(m);
    case RList(l) =>
      var q := new SequenceNode(parent, l, h, region);
      c := SequenceRef(q);
    case RAtom(_) =>
      var s := new ScalarNode(parent, value);
      c := ScalarRef(s);
  }

  /** Each node's level is one more than its parent's, and 0 at the root; this is what makes
      the parent chain finite. */
  ghost predicate ChainOk(n: NodeRef)
    decreases n.Level()
  {
    match n.Parent()
    case None => n.Level() == 0
    case Some(p) => n.Level() == p.Level() + 1 && ChainOk(p)
  }

  /** The node and its ancestors, nearest first, ending at the root. */
  ghost function Ancestors(n: NodeRef): (r: seq<NodeRef>)
    requires ChainOk(n)
    ensures |r| == n.Level() + 1 && r[0] == n
    ensures r[|r| - 1].Parent().None?
    ensures forall i | 0 <= i < |r| - 1 :: r[i].Parent() == Some(r[i + 1])
    ensures forall i | 0 <= i < |r| :: r[i].Level() == n.Level() - i
    decreases n.Level()
  {
    match n.Parent()
    case None => [n]
    case Some(p) => [n] + Ancestors(p)
  }

  /** The node objects along the parent chain. */
  ghost function Chain(n: NodeRef): set<object>
    requires ChainOk(n)
    decreases n.Level()
  {
    {n.Obj()} + match n.Parent() case None => {} case Some(p) => Chain(p)
  }

  /** The node's instance `__dict__`: `_parent` and `_level` on every node, `_value` on a
      scalar node and `_ref` on a collection node. */
  function InstanceDict(n: NodeRef): (r: map<string, Raw>)
    ensures "_parent" in r && "_level" in r
    ensures r["_level"] == RAtom(Int(n.Level()))
    ensures r["_parent"] == if n.Parent().None? then RAtom(NoneValue) else RNode(n.Parent().value)
  {
    var common := map["_parent" := if n.Parent().None? then RAtom(NoneValue) else RNode(n.Parent().value),
                      "_level" := RAtom(Int(n.Level()))];
    match n
    case ScalarRef(s) => common["_value" := s.value]
    case MappingRef(m) => common["_ref" := RDict(m.ref)]
    case SequenceRef(q) => common["_ref" := RList(q.ref)]
  }

  /** On a well-formed chain, `_parent` is None exactly when `_level` is 0. */
  lemma RootIffLevelZero(n: NodeRef)
    requires ChainOk(n)
    ensures InstanceDict(n)["_parent"] == RAtom(NoneValue) <==> InstanceDict(n)["_level"] == RAtom(Int(0))
  {
    if n.Parent().Some? {
      assert n.Level() == n.Parent().value.Level() + 1;
    }
  }

  /** What one node answers itself for `name`, before its parent is asked: a mapping node
      looks at its own keys first, then every node at its instance `__dict__`. */
  function Own(n: NodeRef, name: string): (r: Option<Raw>)
    reads n.Obj()
    ensures n.MappingRef? && n.m.children.Has(name) ==> r == Some(Read(n.m.children.Get(name)))
    ensures !(n.MappingRef? && n.m.children.Has(name)) ==> (r.Some? <==> name in InstanceDict(n))
  {
    if n.MappingRef? && n.m.children.Has(name) then Some(Read(n.m.children.Get(name)))
    else if name in InstanceDict(n) then Some(InstanceDict(n)[name])
    else None
  }

  /** `node.__getattr__(name)`: the node's own answer, else its parent's lookup, else
      AttributeError at the root. */
  function Lookup(n: NodeRef, name: string): (r: Result<Raw, Exc>)
    requires ChainOk(n)
    reads Chain(n)
    ensures r.Failure? ==> r.error == AttributeError(name)
    decreases n.Level()
  {
    match Own(n, name)
    case Some(v) => Success(v)
    case None =>
      match n.Parent()
      case None => Failure(AttributeError(name))
      case Some(p) => Lookup(p, name)
  }

  /** Lookup succeeds exactly when some node on the parent chain has `name` itself. */
  lemma {:induction false} LookupFindsAny(n: NodeRef, name: string)
    requires ChainOk(n)
    ensures Lookup(n, name).Success? <==> exists i | 0 <= i < |Ancestors(n)| :: Own(Ancestors(n)[i], name).Some?
    decreases n.Level()
  {
    if Lookup(n, name).Success? {
      LookupHasHolder(n, name);
    } else if exists i | 0 <= i < |Ancestors(n)| :: Own(Ancestors(n)[i], name).Some? {
      var i :| 0 <= i < |Ancestors(n)| && Own(Ancestors(n)[i], name).Some?;
      LookupReachesHolder(n, name, i);
    }
  }

  lemma {:induction false} LookupHasHolder(n: NodeRef, name: string)
    requires ChainOk(n) && Lookup(n, name).Success?
    ensures exists i | 0 <= i < |Ancestors(n)| :: Own(Ancestors(n)[i], name).Some?
    decreases n.Level()
  {
    if Own(n, name).Some? {
      assert Own(Ancestors(n)[0], name).Some?;
    } else {
      var p := n.Parent().value;
      LookupHasHolder(p, name);
      var i :| 0 <= i < |Ancestors(p)| && Own(Ancestors(p)[i], name).Some?;
      assert Ancestors(n)[i + 1] == Ancestors(p)[i];
    }
  }

  lemma {:induction false} LookupReachesHolder(n: NodeRef, name: string, i: nat)
    requires ChainOk(n) && i < |Ancestors(n)| && Own(Ancestors(n)[i], name).Some?
    ensures Lookup(n, name).Success?
    decreases n.Level()
  {
    if Own(n, name).None? {
      var p := n.Parent().value;
      assert Ancestors(n)[i] == Ancestors(p)[i - 1];
      LookupReachesHolder(p, name, i - 1);
    }
  }

  /** Lookup answers from the nearest node on the parent chain that has `name`: a key close
      to the node shadows the same key further up. */
  lemma {:induction false} LookupIsNearest(n: NodeRef, name: string, i: nat)
    requires ChainOk(n)
    requires i < |Ancestors(n)| && Own(Ancestors(n)[i], name).Some?
    requires forall j | 0 <= j < i :: Own(Ancestors(n)[j], name).None?
    ensures Lookup(n, name) == Success(Own(Ancestors(n)[i], name).value)
    decreases n.Level()
  {
    if i > 0 {
      var a := Ancestors(n);
      assert Own(a[0], name).None?;
      var p := n.Parent().value;
      var b := Ancestors(p);
      assert a == [n] + b;
      forall j | 0 <= j < i - 1 ensures Own(b[j], name).None? {
        assert b[j] == a[j + 1];
      }
      LookupIsNearest(p, name, i - 1);
    }
  }

  /** On a valid mapping node, `node.key` for one of its keys is `node[key]`, whatever the
      ancestors hold. */
  lemma OwnKeyWins(m: MappingNode, key: string)
    requires m.Valid() && ChainOk(MappingRef(m)) && m.ref.entries.Has(key)
    ensures Lookup(MappingRef(m), key) == m.Get(key)
    ensures Lookup(MappingRef(m), key).Success?
  {
    SyncedDictGet(m.children, m.ref.entries, Some(MappingRef(m)), key);
  }

  /** A node's child created from a dict or list has this node as parent and level one more,
      and a lookup of a name the child does not hold itself goes to this node. */
  lemma ChildDefersToParent(m: MappingNode, key: string, name: string)
    requires m.Valid() && ChainOk(MappingRef(m)) && m.ref.entries.Has(key)
    requires !m.ref.entries.Get(key).RNode?
    ensures m.children.Has(key)
    ensures var c := m.children.Get(key);
      && c.Parent() == Some(MappingRef(m)) && c.Level() == m.level + 1 && ChainOk(c)
      && (Own(c, name).None? ==> Lookup(c, name) == Lookup(MappingRef(m), name))
  {
    SyncedDictGet(m.children, m.ref.entries, Some(MappingRef(m)), key);
  }

  /** `node[k1][k2] = value` where `node[k1]` is a mapping child: the read hands out the live
      child over the dict the raw data holds under `k1`, and the write through that child
      lands in that very dict, so the caller's raw data sees it under `k1`, `k2`.  The outer
      dict and the outer cache are left as they were. */
  method SetNested(node: MappingNode, k1: string, k2: string, value: Raw, ghost h: nat, ghost region: Region)
    requires node.Valid() && node.ref.entries.Has(k1) && node.ref.entries.Get(k1).RDict?
    requires node.ref.entries.Get(k1).d != node.ref && node.ref.entries.Get(k1).d.entries.Valid()
    requires node.children.Has(k1)
    requires node.children.Get(k1).Valid() && ChainOk(node.children.Get(k1))
    requires RawTree(value, h, region) && node.ref.entries.Get(k1).d !in region.dicts
    modifies node.ref.entries.Get(k1).d, node.children.Get(k1).Obj()
    ensures node.ref.entries == old(node.ref.entries) && node.children == old(node.children)
    ensures node.Valid()
    ensures node.ref.entries.Get(k1).d.entries == old(node.ref.entries.Get(k1).d.entries).Put(k2, value)
    ensures node.ref.entries.Get(k1).d.entries.Get(k2) == value
  {
    SyncedDictGet(node.children, node.ref.entries, Some(MappingRef(node)), k1);
    var r := node.Get(k1);
    var child := r.value.n.m;
    assert MappingRef(child) == node.children.Get(k1);
    child.Set(k2, value, h, region);
  }

  /** The nested write-through of the mapping node's tests: over `{"a": {"a_a": "test",
      "a_b": 3}, "b": 1}`, `node["a"]["a_a"]` reads "test", and after `node["a"]["a_a"] =
      "passed"` the caller's own dict holds "passed" under "a", "a_a". */
  method NestedWriteThrough() returns (before: Result<Raw, Exc>, after: Raw)
    ensures before == Success(RStr("test"))
    ensures after == RStr("passed")
  {
    var inner := new RawDict(Dict([("a_a", RStr("test")), ("a_b", RAtom(Int(3)))]));
    var outer := new RawDict(Dict([("a", RDict(inner)), ("b", RAtom(Int(1)))]));
    var region := Region({inner, outer}, {});
    assert inner.entries.entries[1].0 == "a_b";
    assert outer.entries.entries[1].0 == "b";
    assert RawTree(RDict(inner), 1, region);
    var node := new MappingNode(None, outer, 2, region);
    assert outer.entries.Find("a") == Some(0);
    SyncedDictGet(node.children, node.ref.entries, Some(MappingRef(node)), "a");
    assert node.children.Find("a") == Some(0) by {
      SameKeysSameFind(node.children, node.ref.entries, "a");
    }
    var child := node.children.Get("a");
    assert child.m.ref == inner;
    before := child.m.Get("a_a");
    assert inner.entries.Find("a_a") == Some(0);
    SetNested(node, "a", "a_a", RStr("passed"), 0, Region({}, {}));
    after := outer.entries.Get("a").d.entries.Get("a_a");
  }

  /** `from_obj(obj)`: a mapping root for a dict, a sequence root for a list, ValueError for
      anything else. */
  method FromObj(obj: Raw, ghost h: nat, ghost region: Region) returns (r: Result<NodeRef, Exc>)
    requires RawTree(obj, h, region)
    requires !obj.RNode?
    ensures r.Failure? <==> !(obj.RDict? || obj.RList?)
    ensures r.Failure? ==> r.error == ValueError
    ensures r.Success? ==> Wraps(r.value, obj, None) && fresh(r.value.Obj()) && r.value.Valid()
    ensures r.Success? ==> r.value.Level() == 0 && ChainOk(r.value)
  {
    match obj
    case RDict(d) =>
      var m := new MappingNode(None, d, h, region);
      return Success(MappingRef(m));
    case RList(l) =>
      var q := new SequenceNode(None, l, h, region);
      return Success(SequenceRef(q));
    case _ =>
      return Failure(ValueError);
  }

  /** `concat(metadata_or_list)`: a node comes back as the very same node; a list of nodes
      becomes a new parentless sequence node over that list, whose children are the very
      nodes in it. */
  method Concat(arg: Raw, ghost h: nat, ghost region: Region) returns (n: NodeRef)
    requires arg.RNode? || arg.RList?
    requires arg.RList? ==> RawTree(arg, h, region)
    ensures arg.RNode? ==> n == arg.n
    ensures arg.RList? ==> n.SequenceRef? && n.q.ref == arg.l && n.Parent().None? && fresh(n.q)
    ensures arg.RList? ==> n.Level() == 0 && ChainOk(n)
    ensures arg.RList? ==> n.Valid() && forall i | 0 <= i < |arg.l.items| ::
      arg.l.items[i].RNode? ==> n.q.children[i] == arg.l.items[i].n
  {
    if arg.RNode? {
      return arg.n;
    }
    var q := new SequenceNode(None, arg.l, h, region);
    return SequenceRef(q);
  }
}
