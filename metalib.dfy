/** The package entry points of metalib/__init__.py, over the copying tree: building a root
    node from a value, joining nodes into one list node, and the column keys and rows that
    `to_dataframe` hands to its table. */
module Metalib {
  import opened Wrappers
  import opened PyTypes
  import opened PyDict
  import opened Nodes

  /** The items `for x in v` visits, or None when `v` is not iterable: a dict's keys, a
      string's characters, a list's or other iterable's items, a dict node's keys and a list
      node's items as it hands them out. */
  function Iterate(v: Value): (r: Option<seq<Value>>)
    ensures r.None? <==> v.VAtom?
    ensures v.VStr? ==> r == Some(seq(|v.str|, i requires 0 <= i < |v.str| => VStr([v.str[i]])))
    ensures v.VList? ==> r == Some(v.s)
  {
    match v
    case VDict(d) => Some(KeyValues(d.Keys()))
    case VList(s) => Some(s)
    case VStr(str) => Some(seq(|str|, i requires 0 <= i < |str| => VStr([str[i]])))
    case VAtom(_) => None
    case VIter(items) => Some(items)
    case VNode(at) =>
      match at.node
      case DictNode(e) => Some(KeyValues(e.Keys()))
      case ListNode(_) => Some(Exposed(at))
  }

  /** Keys as string values. */
  function KeyValues(ks: seq<string>): seq<Value> {
    seq(|ks|, i requires 0 <= i < |ks| => VStr(ks[i]))
  }

  /** The `dict` a value is, if it is one: a plain dict, or a dict node's entries as it hands
      them out. */
  function AsDict(v: Value): (r: Option<Dict<Value>>)
    ensures r.Some? <==> v.VDict? || (v.VNode? && v.at.node.DictNode?)
    ensures v.VDict? ==> r == Some(v.d)
    ensures v.VNode? && v.at.node.DictNode? ==> r.value.Keys() == v.at.node.entries.Keys()
  {
    match v
    case VDict(d) => Some(d)
    case VNode(at) =>
      (match at.node
       case DictNode(e) =>
         var es := seq(|e.entries|, i requires 0 <= i < |e.entries| => (e.entries[i].0, Expose(at, e.entries[i].1)));
         assert Dict(es).Keys() == e.Keys();
         Some(Dict(es))
       case ListNode(_) => None)
    case _ => None
  }

  /** `from_obj(obj)`: a dict gives a dict-node root, any other iterable (a string
      included) a list-node root over its items, and anything else ValueError.  The root has
      no parent and level 0, and it is a faithful copy of what it was built from. */
  function FromObj(obj: Value): (r: Result<Located, Exc>)
    ensures r.Failure? <==> obj.VAtom?
    ensures r.Failure? ==> r.error == ValueError
    ensures r.Success? ==> r.value.up == [] && Level(r.value) == 0 && Parent(r.value).None?
    ensures obj.VDict? ==> r.Success? && r.value.node.DictNode? && r.value.node.entries.Keys() == obj.d.Keys()
    ensures obj.VDict? ==> Unwrap(Child(r.value.node)) == obj
    ensures obj.VNode? && obj.at.node.DictNode? ==>
      r.Success? && r.value.node.DictNode? && r.value.node.entries.Keys() == obj.at.node.entries.Keys()
    ensures !obj.VDict? && r.Success? && !(obj.VNode? && obj.at.node.DictNode?) ==>
      r.value.node.ListNode? && Unwrap(Child(r.value.node)) == VList(Iterate(obj).value)
  {
    match AsDict(obj)
    case Some(d) => Success(At(NewDictNode(d), []))
    case None =>
      match Iterate(obj)
      case Some(xs) => Success(At(NewListNode(xs), []))
      case None => Failure(ValueError)
  }

  /** `concat(metadata_or_list)`: a node is returned as it is; a list of nodes becomes a new
      parentless list node whose items are those very nodes, each keeping its own parent and
      level; a value that cannot be iterated raises TypeError. */
  function Concat(arg: Value): (r: Result<Located, Exc>)
    ensures arg.VNode? ==> r == Success(arg.at)
    ensures r.Failure? <==> arg.VAtom?
    ensures r.Failure? ==> r.error == TypeError
    ensures arg.VList? ==> r.Success? && r.value.up == [] && r.value.node.ListNode?
    ensures arg.VList? ==> |Exposed(r.value)| == |arg.s|
    ensures arg.VList? ==> forall i | 0 <= i < |arg.s| ::
      !(arg.s[i].VDict? || arg.s[i].VList?) ==> Exposed(r.value)[i] == arg.s[i]
  {
    match arg
    case VNode(at) => Success(at)
    case _ =>
      match Iterate(arg)
      case Some(xs) =>
        var root := At(NewListNode(xs), []);
        ExposedCopy(xs);
        Success(root)
      case None => Failure(TypeError)
  }

  /** A list root built from values that need no wrapping (nodes, strings, scalars) hands
      each of them back as it is; a dict or list item comes back as a child node that
      unwraps to it. */
  lemma ExposedCopy(xs: seq<Value>)
    ensures var root := At(NewListNode(xs), []);
      forall i | 0 <= i < |xs| ::
        && (!(xs[i].VDict? || xs[i].VList?) ==> Exposed(root)[i] == xs[i])
        && ((xs[i].VDict? || xs[i].VList?) ==> Exposed(root)[i].VNode? && Unwrap(Child(Exposed(root)[i].at.node)) == xs[i])
  {
    var root := At(NewListNode(xs), []);
    forall i | 0 <= i < |xs|
      ensures !(xs[i].VDict? || xs[i].VList?) ==> Exposed(root)[i] == xs[i]
      ensures (xs[i].VDict? || xs[i].VList?) ==> Exposed(root)[i].VNode? && Unwrap(Child(Exposed(root)[i].at.node)) == xs[i]
    {
      assert Slot(root.node, i) == Transform(xs[i]);
      UnwrapTransform(xs[i]);
    }
  }

  /** `include_keys` / `exclude_keys`: None, one key given as a string, or several keys. */
  datatype KeySpec = Unset | OneKey(key: string) | Keys(keys: seq<string>)

  /** The keys a spec names; a single string counts as one key, not as its characters. */
  function Listed(spec: KeySpec): seq<string> {
    match spec
    case Unset => []
    case OneKey(k) => [k]
    case Keys(ks) => ks
  }

  /** Some dataset that is a dict node has key `k`. */
  ghost predicate InSomeDict(datasets: seq<Located>, k: string) {
    exists j | 0 <= j < |datasets| :: datasets[j].node.DictNode? && k in datasets[j].node.entries.Keys()
  }

  /** The column keys of `to_dataframe`: the union of the keys of the datasets that are dict
      nodes, then the include keys added, then the exclude keys taken away, so that a key both
      included and excluded is absent. */
  method ColumnKeys(datasets: seq<Located>, includeKeys: KeySpec, excludeKeys: KeySpec) returns (keys: set<string>)
    ensures forall k :: k in keys <==> (InSomeDict(datasets, k) || k in Listed(includeKeys)) && k !in Listed(excludeKeys)
  {
    keys := {};
    var i := 0;
    while i < |datasets|
      invariant 0 <= i <= |datasets|
      invariant forall k :: k in keys <==> InSomeDict(datasets[..i], k)
    {
      var ds := datasets[i];
      if ds.node.DictNode? {
        keys := keys + (set k | k in ds.node.entries.Keys());
      }
      i := i + 1;
      forall k ensures k in keys <==> InSomeDict(datasets[..i], k) {
        if InSomeDict(datasets[..i - 1], k) {
          var j :| 0 <= j < i - 1 && datasets[..i - 1][j].node.DictNode? && k in datasets[..i - 1][j].node.entries.Keys();
          assert datasets[..i][j] == datasets[..i - 1][j];
        }
        if InSomeDict(datasets[..i], k) {
          var j :| 0 <= j < i && datasets[..i][j].node.DictNode? && k in datasets[..i][j].node.entries.Keys();
          if j < i - 1 {
            assert datasets[..i - 1][j] == datasets[..i][j];
          }
        }
        if ds.node.DictNode? && k in ds.node.entries.Keys() {
          assert datasets[..i][i - 1] == ds;
        }
      }
    }
    assert datasets[..i] == datasets;
    if !includeKeys.Unset? {
      keys := keys + (set k | k in Listed(includeKeys));
    }
    if !excludeKeys.Unset? {
      keys := keys - (set k | k in Listed(excludeKeys));
    }
  }

  /** `[ds.get(keys) for ds in datasets]`: each dataset's values for the columns in column
      order; the first dataset with a missing column ends it with that AttributeError. */
  function Rows(datasets: seq<Located>, columns: seq<string>): (r: Result<seq<seq<Value>>, Exc>)
    ensures r.Success? <==> forall i | 0 <= i < |datasets| :: GetAll(datasets[i], columns).Success?
    ensures r.Success? ==> |r.value| == |datasets|
    ensures r.Success? ==> forall i | 0 <= i < |datasets| :: GetAll(datasets[i], columns) == Success(r.value[i])
    ensures r.Failure? ==> exists i | 0 <= i < |datasets| ::
      && GetAll(datasets[i], columns) == Failure(r.error)
      && forall j | 0 <= j < i :: GetAll(datasets[j], columns).Success?
  {
    var rows := seq(|datasets|, i requires 0 <= i < |datasets| => GetAll(datasets[i], columns));
    assert forall i | 0 <= i < |datasets| :: rows[i] == GetAll(datasets[i], columns);
    Collect(rows)
  }

  /** The column list and rows of `to_dataframe`: `list(keys)` puts the key set in some
      order, each key once, and every row follows that order. */
  method TableData(datasets: seq<Located>, includeKeys: KeySpec, excludeKeys: KeySpec)
    returns (columns: seq<string>, rows: Result<seq<seq<Value>>, Exc>)
    ensures forall k :: k in columns <==> (InSomeDict(datasets, k) || k in Listed(includeKeys)) && k !in Listed(excludeKeys)
    ensures forall i, j | 0 <= i < j < |columns| :: columns[i] != columns[j]
    ensures rows == Rows(datasets, columns)
  {
    var keys := ColumnKeys(datasets, includeKeys, excludeKeys);
    columns := [];
    var rest := keys;
    while rest != {}
      invariant forall k :: k in keys <==> k in columns || k in rest
      invariant forall k | k in columns :: k !in rest
      invariant forall i, j | 0 <= i < j < |columns| :: columns[i] != columns[j]
      decreases |rest|
    {
      var k :| k in rest;
      columns := columns + [k];
      rest := rest - {k};
    }
    rows := Rows(datasets, columns);
  }
}
