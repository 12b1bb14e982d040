/** The copying metadata tree of metalib/_nodes.py.

    A dict node or list node is a copy of its input in which every dict and list has been
    turned into a child node; every other value is stored as it is.  Nodes never change after
    construction, so they are values here.  A node's parent is not stored in the node: a
    `Located` node carries its list of ancestors, nearest first, which is the chain that
    `parent` links in the source. */
module Nodes {
  import opened Wrappers
  import opened PyTypes
  import opened PyDict

  /** A Python value as the copying tree sees it. */
  datatype Value =
    | VDict(d: Dict<Value>)
    | VList(s: seq<Value>)
    | VStr(str: string)
    | VAtom(a: Atom)
    /** An iterable that is neither a dict, a list nor a string: a tuple, a generator. */
    | VIter(items: seq<Value>)
    /** A dict node or list node object, at its own place in its own tree. */
    | VNode(at: Located)

  /** What a node holds in one slot: a raw value, or a child node it created. */
  datatype Stored = Raw(v: Value) | Child(node: Node)

  /** `MetadataDictNode` (a dict) and `MetadataListNode` (a list). */
  datatype Node = DictNode(entries: Dict<Stored>) | ListNode(items: seq<Stored>)

  /** A node together with its ancestors, nearest first; the root has none. */
  datatype Located = At(node: Node, up: seq<Node>)

  /** `level`: 0 at the root, one more than the parent's below it. */
  function Level(at: Located): nat {
    |at.up|
  }

  /** `parent`: None at the root. */
  function Parent(at: Located): (r: Option<Located>)
    ensures r.None? <==> Level(at) == 0
    ensures r.Some? ==> Level(r.value) + 1 == Level(at)
  {
    if at.up == [] then None else Some(At(at.up[0], at.up[1..]))
  }

  /** `_transform_value(value)`: a node passes through unchanged; a dict becomes a dict node
      and a list a list node, with the same keys or length, whose parent is the caller; any
      other value, strings and tuples included, is stored raw. */
  function Transform(v: Value): (r: Stored)
    ensures v.VDict? ==> r.Child? && r.node.DictNode? && r.node.entries.Keys() == v.d.Keys()
    ensures v.VList? ==> r.Child? && r.node.ListNode? && |r.node.items| == |v.s|
    ensures !(v.VDict? || v.VList?) ==> r == Raw(v)
  {
    match v
    case VDict(d) =>
      var es := seq(|d.entries|, i requires 0 <= i < |d.entries| => (d.entries[i].0, Transform(d.entries[i].1)));
      assert Dict(es).Keys() == d.Keys();
      Child(DictNode(Dict(es)))
    case VList(s) =>
      Child(ListNode(seq(|s|, i requires 0 <= i < |s| => Transform(s[i]))))
    case _ => Raw(v)
  }

  /** `MetadataDictNode(parent, values)`, without the parent: the parent is where the node
      is put. */
  function NewDictNode(d: Dict<Value>): (r: Node)
    ensures r.DictNode? && r.entries.Keys() == d.Keys()
    ensures Unwrap(Child(r)) == VDict(d)
  {
    UnwrapTransform(VDict(d));
    Transform(VDict(d)).node
  }

  /** `MetadataListNode(parent, values)`, without the parent. */
  function NewListNode(s: seq<Value>): (r: Node)
    ensures r.ListNode? && |r.items| == |s|
    ensures Unwrap(Child(r)) == VList(s)
  {
    UnwrapTransform(VList(s));
    Transform(VList(s)).node
  }

  /** The plain value a stored slot stands for: child nodes turned back into dicts and lists. */
  function Unwrap(s: Stored): Value {
    match s
    case Raw(v) => v
    case Child(DictNode(e)) =>
      VDict(Dict(seq(|e.entries|, i requires 0 <= i < |e.entries| => (e.entries[i].0, Unwrap(e.entries[i].1)))))
    case Child(ListNode(items)) =>
      VList(seq(|items|, i requires 0 <= i < |items| => Unwrap(items[i])))
  }

  /** Construction copies its input faithfully: unwrapping the tree gives the input back. */
  lemma {:induction false} UnwrapTransform(v: Value)
    ensures Unwrap(Transform(v)) == v
  {
    match v
    case VDict(d) =>
      forall i | 0 <= i < |d.entries| ensures Unwrap(Transform(d.entries[i].1)) == d.entries[i].1 {
        UnwrapTransform(d.entries[i].1);
      }
      assert Unwrap(Transform(v)).d.entries == d.entries;
    case VList(s) =>
      forall i | 0 <= i < |s| ensures Unwrap(Transform(s[i])) == s[i] {
        UnwrapTransform(s[i]);
      }
      assert Unwrap(Transform(v)).s == s;
    case _ =>
  }

  /** The value a node hands out for one of its slots: a raw value as it is, a child node
      located under this node. */
  function Expose(at: Located, s: Stored): (r: Value)
    ensures s.Raw? ==> r == s.v
    ensures s.Child? ==> r.VNode? && r.at.node == s.node && Parent(r.at) == Some(at)
    ensures s.Child? ==> Level(r.at) == Level(at) + 1
  {
    match s
    case Raw(v) => v
    case Child(n) => VNode(At(n, [at.node] + at.up))
  }

  /** The number of slots of a node. */
  function Size(n: Node): nat {
    match n
    case DictNode(e) => |e.entries|
    case ListNode(items) => |items|
  }

  /** The `i`th slot of a node, in storage order. */
  function Slot(n: Node, i: nat): Stored
    requires i < Size(n)
  {
    match n
    case DictNode(e) => e.entries[i].1
    case ListNode(items) => items[i]
  }

  /** The values a node yields when iterated over values: `self.values()` for a dict node,
      `iter(self)` for a list node. */
  function Exposed(at: Located): (r: seq<Value>)
    ensures |r| == Size(at.node)
  {
    seq(Size(at.node), i requires 0 <= i < Size(at.node) => Expose(at, Slot(at.node, i)))
  }

  /** The instance `__dict__`: the `parent` and `level` attributes set by the constructor. */
  function InstanceDict(at: Located): (r: map<string, Value>)
    ensures r.Keys == {"parent", "level"}
    ensures r["level"] == VAtom(Int(Level(at)))
    ensures r["parent"] == if Parent(at).None? then VAtom(NoneValue) else VNode(Parent(at).value)
  {
    map["parent" := if Parent(at).None? then VAtom(NoneValue) else VNode(Parent(at).value),
        "level" := VAtom(Int(Level(at)))]
  }

  /** What one node answers itself for `name`: a dict node looks at its own keys first, then
      every node at its instance `__dict__`; a list node has no key step. */
  function Own(at: Located, name: string): (r: Option<Value>)
    ensures at.node.DictNode? && at.node.entries.Has(name) ==>
      r == Some(Expose(at, at.node.entries.Get(name)))
    ensures !(at.node.DictNode? && at.node.entries.Has(name)) ==> (r.Some? <==> name in {"parent", "level"})
  {
    if at.node.DictNode? && at.node.entries.Has(name) then Some(Expose(at, at.node.entries.Get(name)))
    else if name in InstanceDict(at) then Some(InstanceDict(at)[name])
    else None
  }

  /** `__getattr__(name)`: the node's own answer, else the parent's lookup, else
      AttributeError at the root. */
  function Lookup(at: Located, name: string): (r: Result<Value, Exc>)
    ensures r.Failure? ==> r.error == AttributeError(name)
    decreases |at.up|
  {
    match Own(at, name)
    case Some(v) => Success(v)
    case None =>
      match Parent(at)
      case None => Failure(AttributeError(name))
      case Some(p) => Lookup(p, name)
  }

  /** The node and its ancestors, nearest first, ending at the root. */
  function Ancestors(at: Located): (r: seq<Located>)
    ensures |r| == Level(at) + 1 && r[0] == at
    ensures Parent(r[|r| - 1]).None?
    ensures forall i | 0 <= i < |r| - 1 :: Parent(r[i]) == Some(r[i + 1])
    decreases |at.up|
  {
    match Parent(at)
    case None => [at]
    case Some(p) => [at] + Ancestors(p)
  }

  /** Lookup succeeds exactly when some node on the parent chain has `name` itself. */
  lemma LookupFindsAny(at: Located, name: string)
    ensures Lookup(at, name).Success? <==> exists i | 0 <= i < |Ancestors(at)| :: Own(Ancestors(at)[i], name).Some?
  {
    if Lookup(at, name).Success? {
      LookupHasHolder(at, name);
    } else if exists i | 0 <= i < |Ancestors(at)| :: Own(Ancestors(at)[i], name).Some? {
      var i :| 0 <= i < |Ancestors(at)| && Own(Ancestors(at)[i], name).Some?;
      LookupReachesHolder(at, name, i);
    }
  }

  /** A successful lookup found `name` at some node of the parent chain. */
  lemma {:induction false} LookupHasHolder(at: Located, name: string)
    requires Lookup(at, name).Success?
    ensures exists i | 0 <= i < |Ancestors(at)| :: Own(Ancestors(at)[i], name).Some?
    decreases |at.up|
  {
    if Own(at, name).Some? {
      assert Own(Ancestors(at)[0], name).Some?;
    } else {
      var p := Parent(at).value;
      LookupHasHolder(p, name);
      var i :| 0 <= i < |Ancestors(p)| && Own(Ancestors(p)[i], name).Some?;
      assert Ancestors(at)[i + 1] == Ancestors(p)[i];
    }
  }

  /** If some node of the parent chain has `name`, the lookup succeeds. */
  lemma {:induction false} LookupReachesHolder(at: Located, name: string, i: nat)
    requires i < |Ancestors(at)| && Own(Ancestors(at)[i], name).Some?
    ensures Lookup(at, name).Success?
    decreases |at.up|
  {
    if Own(at, name).None? {
      var p := Parent(at).value;
      assert Ancestors(at)[i] == Ancestors(p)[i - 1];
      LookupReachesHolder(p, name, i - 1);
    }
  }

  /** Lookup answers from the nearest node on the parent chain that has `name`: a key close
      to the node shadows the same key further up. */
  lemma {:induction false} LookupIsNearest(at: Located, name: string, i: nat)
    requires i < |Ancestors(at)| && Own(Ancestors(at)[i], name).Some?
    requires forall j | 0 <= j < i :: Own(Ancestors(at)[j], name).None?
    ensures Lookup(at, name) == Success(Own(Ancestors(at)[i], name).value)
    decreases |at.up|
  {
    if i > 0 {
      var a := Ancestors(at);
      assert Own(a[0], name).None?;
      var p := Parent(at).value;
      var b := Ancestors(p);
      assert a == [at] + b;
      forall j | 0 <= j < i - 1 ensures Own(b[j], name).None? {
        assert b[j] == a[j + 1];
      }
      LookupIsNearest(p, name, i - 1);
    }
  }

  /** `has(name)`: whether the lookup succeeds.  Lookup raises nothing but AttributeError,
      so `has` is true exactly when some node on the parent chain holds `name`. */
  function Has(at: Located, name: string): (r: bool)
    ensures r <==> exists i | 0 <= i < |Ancestors(at)| :: Own(Ancestors(at)[i], name).Some?
  {
    LookupFindsAny(at, name);
    Lookup(at, name).Success?
  }

  /** The argument of `get`: a `str`, a `list` of names, or anything else. */
  datatype NameArg = OneName(name: string) | Names(names: seq<string>) | OtherArg

  /** `[self.__getattr__(s) for s in names]`: every name looked up in order; the first name
      that is missing ends it with that name's AttributeError. */
  function GetAll(at: Located, names: seq<string>): (r: Result<seq<Value>, Exc>)
    ensures r.Success? <==> forall i | 0 <= i < |names| :: Lookup(at, names[i]).Success?
    ensures r.Success? ==> |r.value| == |names|
    ensures r.Success? ==> forall i | 0 <= i < |names| :: Lookup(at, names[i]) == Success(r.value[i])
    ensures r.Failure? ==> exists i | 0 <= i < |names| ::
      && r.error == AttributeError(names[i]) && Lookup(at, names[i]).Failure?
      && forall j | 0 <= j < i :: Lookup(at, names[j]).Success?
  {
    var lookups := seq(|names|, i requires 0 <= i < |names| => Lookup(at, names[i]));
    assert forall i | 0 <= i < |names| :: lookups[i] == Lookup(at, names[i]);
    Collect(lookups)
  }

  /** `get(param_name)`: one lookup for a string, a list of lookups for a list of names, and
      ValueError for any other argument. */
  function Get(at: Located, arg: NameArg): (r: Result<Value, Exc>)
    ensures arg.OneName? ==> r == Lookup(at, arg.name)
    ensures arg.Names? ==> (r.Success? <==> GetAll(at, arg.names).Success?)
    ensures arg.Names? && r.Success? ==> r.value == VList(GetAll(at, arg.names).value)
    ensures arg.Names? && r.Failure? ==> r.error == GetAll(at, arg.names).error
    ensures arg.OtherArg? ==> r == Failure(ValueError)
  {
    match arg
    case OneName(name) => Lookup(at, name)
    case Names(names) =>
      (match GetAll(at, names)
       case Success(vs) => Success(VList(vs))
       case Failure(e) => Failure(e))
    case OtherArg => Failure(ValueError)
  }

  /** The node-valued entries of a sequence of values, in order. */
  function NodeValues(vs: seq<Value>): seq<Located> {
    if vs == [] then []
    else (if vs[0].VNode? then [vs[0].at] else []) + NodeValues(vs[1..])
  }

  /** `NodeValues` keeps exactly the nodes. */
  lemma {:induction false} NodeValuesMembers(vs: seq<Value>)
    ensures forall l :: l in NodeValues(vs) <==> VNode(l) in vs
  {
    if vs != [] {
      NodeValuesMembers(vs[1..]);
      assert vs == [vs[0]] + vs[1..];
    }
  }

  /** `NodeValues` keeps the order: it distributes over concatenation. */
  lemma {:induction false} NodeValuesAppend(a: seq<Value>, b: seq<Value>)
    ensures NodeValues(a + b) == NodeValues(a) + NodeValues(b)
  {
    if a == [] {
      assert a + b == b;
    } else {
      assert (a + b)[0] == a[0] && (a + b)[1..] == a[1..] + b;
      NodeValuesAppend(a[1..], b);
    }
  }

  /** `get_child_nodes()` from slot `i` on. */
  function ChildrenFrom(at: Located, i: nat): seq<Located>
    requires i <= Size(at.node)
    decreases Size(at.node) - i
  {
    if i == Size(at.node) then []
    else
      match Slot(at.node, i)
      case Child(n) => [At(n, [at.node] + at.up)] + ChildrenFrom(at, i + 1)
      case Raw(VNode(l)) => [l] + ChildrenFrom(at, i + 1)
      case Raw(_) => ChildrenFrom(at, i + 1)
  }

  /** `get_child_nodes()`: the node-valued children in storage order; a stored node that was
      passed in keeps its own place, a child the node created is located under it. */
  function ChildNodes(at: Located): (r: seq<Located>)
    ensures r == NodeValues(Exposed(at))
  {
    ChildrenAreNodeValues(at, 0);
    assert Exposed(at)[0..] == Exposed(at);
    ChildrenFrom(at, 0)
  }

  lemma {:induction false} ChildrenAreNodeValues(at: Located, i: nat)
    requires i <= Size(at.node)
    ensures ChildrenFrom(at, i) == NodeValues(Exposed(at)[i..])
    decreases Size(at.node) - i
  {
    if i < Size(at.node) {
      ChildrenAreNodeValues(at, i + 1);
      assert Exposed(at)[i..][1..] == Exposed(at)[i + 1..];
    }
  }

  /** What `predicate(node)` does: returns True, returns False, or raises. */
  datatype Verdict = Yes | No | Raises(e: Exc)

  /** A run of a generator: what it yielded, and the exception that ended it, if any. */
  datatype Run = Run(yielded: seq<Located>, raised: Option<Exc>)

  /** A run followed by another; an exception ends the combined run. */
  function Then(a: Run, b: Run): Run {
    if a.raised.Some? then a else Run(a.yielded + b.yielded, b.raised)
  }

  lemma ThenAssoc(a: Run, b: Run, c: Run)
    ensures Then(Then(a, b), c) == Then(a, Then(b, c))
  {
    if a.raised.None? && b.raised.None? {
      assert (a.yielded + b.yielded) + c.yielded == a.yielded + (b.yielded + c.yielded);
    }
  }

  /** The `try: if predicate(child): yield child / except AttributeError: pass` step. */
  function Test(c: Located, p: Located -> Verdict): (r: Run)
    ensures r.yielded == (if p(c) == Yes then [c] else [])
    ensures r.raised.Some? <==> p(c).Raises? && !p(c).e.AttributeError?
  {
    match p(c)
    case Yes => Run([c], None)
    case No => Run([], None)
    case Raises(AttributeError(_)) => Run([], None)
    case Raises(e) => Run([], Some(e))
  }

  /** `query(predicate)`: for each child in order, the child's own query and then the child
      itself if the predicate holds. */
  function Query(at: Located, p: Located -> Verdict): Run
    decreases at.node, 1
  {
    QueryFrom(at, p, 0)
  }

  function QueryFrom(at: Located, p: Located -> Verdict, i: nat): Run
    requires i <= Size(at.node)
    decreases at.node, 0, Size(at.node) - i
  {
    if i == Size(at.node) then Run([], None)
    else
      match Slot(at.node, i)
      case Child(n) =>
        var c := At(n, [at.node] + at.up);
        Then(Then(Query(c, p), Test(c, p)), QueryFrom(at, p, i + 1))
      case Raw(VNode(l)) =>
        Then(Then(Query(l, p), Test(l, p)), QueryFrom(at, p, i + 1))
      case Raw(_) => QueryFrom(at, p, i + 1)
  }

  /** Every node below `at` in depth-first post-order: each child's descendants, then the
      child, children left to right.  `at` itself is not listed. */
  function Descendants(at: Located): seq<Located>
    decreases at.node, 1
  {
    DescendantsFrom(at, 0)
  }

  function DescendantsFrom(at: Located, i: nat): seq<Located>
    requires i <= Size(at.node)
    decreases at.node, 0, Size(at.node) - i
  {
    if i == Size(at.node) then []
    else
      match Slot(at.node, i)
      case Child(n) =>
        var c := At(n, [at.node] + at.up);
        Descendants(c) + [c] + DescendantsFrom(at, i + 1)
      case Raw(VNode(l)) => Descendants(l) + [l] + DescendantsFrom(at, i + 1)
      case Raw(_) => DescendantsFrom(at, i + 1)
  }

  /** The depth of the node tree under `n`, counting both the children it created and the
      nodes stored in it as they were passed in. */
  ghost function Height(n: Node): nat
    decreases n, 1
  {
    SlotsHeight(n, 0) + 1
  }

  /** The greatest height among the nodes held in slots `i` onwards. */
  ghost function SlotsHeight(n: Node, i: nat): nat
    requires i <= Size(n)
    decreases n, 0, Size(n) - i
  {
    if i == Size(n) then 0
    else
      var h := match Slot(n, i)
        case Child(c) => Height(c)
        case Raw(VNode(l)) => Height(l.node)
        case Raw(_) => 0;
      var rest := SlotsHeight(n, i + 1);
      if h < rest then rest else h
  }

  /** Every descendant is strictly lower than the node it descends from. */
  lemma {:induction false} DescendantsLower(at: Located)
    ensures forall d | d in Descendants(at) :: Height(d.node) < Height(at.node)
    decreases at.node, 1
  {
    DescendantsFromLower(at, 0);
  }

  lemma {:induction false} DescendantsFromLower(at: Located, i: nat)
    requires i <= Size(at.node)
    ensures forall d | d in DescendantsFrom(at, i) :: Height(d.node) <= SlotsHeight(at.node, i)
    decreases at.node, 0, Size(at.node) - i
  {
    if i < Size(at.node) {
      DescendantsFromLower(at, i + 1);
      match Slot(at.node, i)
      case Child(n) =>
        var c := At(n, [at.node] + at.up);
        DescendantsLower(c);
      case Raw(VNode(l)) =>
        DescendantsLower(l);
      case Raw(_) =>
    }
  }

  /** `query` never tests the node it is called on: it is not among its own descendants. */
  lemma NotOwnDescendant(at: Located)
    ensures at !in Descendants(at)
  {
    DescendantsLower(at);
  }

  /** The reference run: the predicate applied to each node of a list in turn. */
  function Scan(cs: seq<Located>, p: Located -> Verdict): Run {
    if cs == [] then Run([], None) else Then(Test(cs[0], p), Scan(cs[1..], p))
  }

  /** Scanning a concatenation is scanning one part, then the other. */
  lemma {:induction false} ScanAppend(a: seq<Located>, b: seq<Located>, p: Located -> Verdict)
    ensures Scan(a + b, p) == Then(Scan(a, p), Scan(b, p))
  {
    if a == [] {
      assert a + b == b;
    } else {
      assert (a + b)[1..] == a[1..] + b;
      ScanAppend(a[1..], b, p);
      ThenAssoc(Test(a[0], p), Scan(a[1..], p), Scan(b, p));
    }
  }

  /** `query` tests the descendants in post-order: it is the reference scan over them. */
  lemma {:induction false} QueryIsScan(at: Located, p: Located -> Verdict)
    ensures Query(at, p) == Scan(Descendants(at), p)
    decreases at.node, 1
  {
    QueryFromIsScan(at, p, 0);
  }

  lemma {:induction false} QueryFromIsScan(at: Located, p: Located -> Verdict, i: nat)
    requires i <= Size(at.node)
    ensures QueryFrom(at, p, i) == Scan(DescendantsFrom(at, i), p)
    decreases at.node, 0, Size(at.node) - i
  {
    if i < Size(at.node) {
      QueryFromIsScan(at, p, i + 1);
      match Slot(at.node, i)
      case Child(n) =>
        var c := At(n, [at.node] + at.up);
        QueryIsScan(c, p);
        ScanStep(Descendants(c), c, DescendantsFrom(at, i + 1), p);
      case Raw(VNode(l)) =>
        QueryIsScan(l, p);
        ScanStep(Descendants(l), l, DescendantsFrom(at, i + 1), p);
      case Raw(_) =>
    }
  }

  lemma ScanStep(d: seq<Located>, c: Located, rest: seq<Located>, p: Located -> Verdict)
    ensures Scan(d + [c] + rest, p) == Then(Then(Scan(d, p), Test(c, p)), Scan(rest, p))
  {
    ScanAppend(d + [c], rest, p);
    ScanAppend(d, [c], p);
    var t := Test(c, p);
    assert [c][1..] == [];
    assert Scan([c], p) == Then(t, Run([], None));
    assert t.yielded + [] == t.yielded;
    assert Then(t, Run([], None)) == t;
  }

  /** When the predicate raises nothing but AttributeError, `query` yields exactly the
      descendants it accepts, in post-order, and ends normally. */
  lemma {:induction false} ScanFilters(cs: seq<Located>, p: Located -> Verdict)
    requires forall i | 0 <= i < |cs| :: !(p(cs[i]).Raises? && !p(cs[i]).e.AttributeError?)
    ensures Scan(cs, p).raised.None?
    ensures Scan(cs, p).yielded == Accepted(cs, p)
  {
    if cs != [] {
      ScanFilters(cs[1..], p);
    }
  }

  /** The nodes of a list the predicate accepts, in order. */
  function Accepted(cs: seq<Located>, p: Located -> Verdict): seq<Located> {
    if cs == [] then [] else (if p(cs[0]) == Yes then [cs[0]] else []) + Accepted(cs[1..], p)
  }

  /** The first predicate error other than AttributeError, in post-order, ends the query. */
  lemma {:induction false} ScanStopsAtError(cs: seq<Located>, p: Located -> Verdict, i: nat)
    requires i < |cs| && p(cs[i]).Raises? && !p(cs[i]).e.AttributeError?
    requires forall j | 0 <= j < i :: !(p(cs[j]).Raises? && !p(cs[j]).e.AttributeError?)
    ensures Scan(cs, p) == Run(Accepted(cs[..i], p), Some(p(cs[i]).e))
  {
    if i > 0 {
      assert cs[1..][..i - 1] == cs[..i][1..];
      ScanStopsAtError(cs[1..], p, i - 1);
    }
  }
}
