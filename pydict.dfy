/** Python's built-in dict as both node trees use it: the entries in insertion order, each key
    at most once. Iteration, `len`, `in`, `d[k]`, `d[k] = v` and `del d[k]` are modelled. */
module PyDict {
  import opened Wrappers

  /** A dict as the sequence of its (key, value) entries in insertion order. */
  datatype Dict<V> = Dict(entries: seq<(string, V)>) {

    /** No key occurs twice, as in every Python dict. */
    ghost predicate Valid() {
      forall i, j | 0 <= i < j < |entries| :: entries[i].0 != entries[j].0
    }

    /** `len(d)` */
    function Len(): nat {
      |entries|
    }

    /** `list(d)`: the keys in iteration order. */
    function Keys(): seq<string> {
      seq(|entries|, i requires 0 <= i < |entries| => entries[i].0)
    }

    /** `list(d.values())`: the values in iteration order. */
    function Values(): seq<V> {
      seq(|entries|, i requires 0 <= i < |entries| => entries[i].1)
    }

    /** The first position at or after `from` that holds key `k`. */
    function FindFrom(k: string, from: nat): (r: Option<nat>)
      requires from <= |entries|
      ensures r.Some? ==> from <= r.value < |entries| && entries[r.value].0 == k
      ensures r.Some? ==> forall j | from <= j < r.value :: entries[j].0 != k
      ensures r.None? ==> forall j | from <= j < |entries| :: entries[j].0 != k
      decreases |entries| - from
    {
      if from == |entries| then None
      else if entries[from].0 == k then Some(from)
      else FindFrom(k, from + 1)
    }

    /** The position of key `k`, if the dict holds it. */
    function Find(k: string): (r: Option<nat>)
      ensures r.Some? ==> r.value < |entries| && entries[r.value].0 == k
      ensures r.None? <==> k !in Keys()
    {
      var r := FindFrom(k, 0);
      assert r.Some? ==> Keys()[r.value] == k;
      assert r.None? ==> forall j | 0 <= j < |Keys()| :: Keys()[j] != k;
      r
    }

    /** `k in d` */
    predicate Has(k: string) {
      Find(k).Some?
    }

    /** `d[k]` for a key the dict holds. */
    function Get(k: string): V
      requires Has(k)
    {
      entries[Find(k).value].1
    }

    /** `d[k] = v`: an existing key keeps its place, a new key goes last. */
    function Put(k: string, v: V): (r: Dict<V>)
      requires Valid()
      ensures r.Valid()
      ensures r.Has(k) && r.Get(k) == v
      ensures forall k' | k' != k :: r.Has(k') == Has(k')
      ensures forall k' | k' != k && Has(k') :: r.Get(k') == Get(k')
      ensures r.Keys() == if Has(k) then Keys() else Keys() + [k]
    {
      match Find(k)
      case Some(i) => PutAt(k, v, i); Dict(entries[i := (k, v)])
      case None => PutLast(k, v); Dict(entries + [(k, v)])
    }

    lemma PutAt(k: string, v: V, i: nat)
      requires Valid() && Find(k) == Some(i)
      ensures var r := Dict(entries[i := (k, v)]);
        && r.Valid() && r.Keys() == Keys() && r.Has(k) && r.Get(k) == v
        && forall k' | k' != k :: r.Has(k') == Has(k') && (Has(k') ==> r.Get(k') == Get(k'))
    {
      var r := Dict(entries[i := (k, v)]);
      assert r.Keys() == Keys();
      r.FindAt(k, i);
      forall k' | k' != k ensures r.Has(k') == Has(k') && (Has(k') ==> r.Get(k') == Get(k')) {
        SameKeysSameFind(this, r, k');
      }
    }

    lemma PutLast(k: string, v: V)
      requires Valid() && Find(k) == None
      ensures var r := Dict(entries + [(k, v)]);
        && r.Valid() && r.Keys() == Keys() + [k] && r.Has(k) && r.Get(k) == v
        && forall k' | k' != k :: r.Has(k') == Has(k') && (Has(k') ==> r.Get(k') == Get(k'))
    {
      var r := Dict(entries + [(k, v)]);
      assert r.Keys() == Keys() + [k];
      r.FindAt(k, |entries|);
      forall k' | k' != k ensures r.Has(k') == Has(k') && (Has(k') ==> r.Get(k') == Get(k')) {
        match Find(k')
        case Some(j) => r.FindAt(k', j);
        case None => assert k' !in r.Keys();
      }
    }

    /** `del d[k]` for a key the dict holds: the other entries keep their order. */
    function Remove(k: string): (r: Dict<V>)
      requires Valid() && Has(k)
      ensures r.Valid()
      ensures !r.Has(k)
      ensures forall k' | k' != k :: r.Has(k') == Has(k')
      ensures forall k' | k' != k && Has(k') :: r.Get(k') == Get(k')
      ensures r.Len() == Len() - 1
      ensures r.Keys() == Keys()[..Find(k).value] + Keys()[Find(k).value + 1..]
    {
      var i := Find(k).value;
      RemoveAt(k, i);
      Dict(entries[..i] + entries[i + 1..])
    }

    lemma RemoveAt(k: string, i: nat)
      requires Valid() && Find(k) == Some(i)
      ensures var r := Dict(entries[..i] + entries[i + 1..]);
        && r.Valid() && !r.Has(k) && r.Keys() == Keys()[..i] + Keys()[i + 1..]
        && forall k' | k' != k :: r.Has(k') == Has(k') && (Has(k') ==> r.Get(k') == Get(k'))
    {
      var r := Dict(entries[..i] + entries[i + 1..]);
      assert r.Keys() == Keys()[..i] + Keys()[i + 1..];
      assert k !in r.Keys();
      forall k' | k' != k ensures r.Has(k') == Has(k') && (Has(k') ==> r.Get(k') == Get(k')) {
        match Find(k')
        case Some(j) => r.FindAt(k', if j < i then j else j - 1);
        case None => assert k' !in r.Keys();
      }
    }

    /** In a valid dict, the entry that holds `k` is the one `Find` reports. */
    lemma FindAt(k: string, i: nat)
      requires Valid() && i < |entries| && entries[i].0 == k
      ensures Find(k) == Some(i)
    {
    }
  }

  /** Two dicts with the same keys in the same order store each key at the same place:
      a mapping node's cache and its backing dict are searched alike. */
  lemma SameKeysSameFind<A, B>(a: Dict<A>, b: Dict<B>, k: string)
    requires a.Keys() == b.Keys()
    ensures a.Find(k) == b.Find(k)
  {
    assert |a.entries| == |a.Keys()| == |b.Keys()| == |b.entries|;
    SameKeysSameFindFrom(a, b, k, 0);
  }

  lemma {:induction false} SameKeysSameFindFrom<A, B>(a: Dict<A>, b: Dict<B>, k: string, from: nat)
    requires a.Keys() == b.Keys() && from <= |a.entries| == |b.entries|
    ensures a.FindFrom(k, from) == b.FindFrom(k, from)
    decreases |a.entries| - from
  {
    if from < |a.entries| {
      assert a.entries[from].0 == a.Keys()[from] == b.Keys()[from] == b.entries[from].0;
      SameKeysSameFindFrom(a, b, k, from + 1);
    }
  }

  /** Distinct keys depend on the key sequence alone. */
  lemma SameKeysValid<A, B>(a: Dict<A>, b: Dict<B>)
    requires a.Keys() == b.Keys() && b.Valid()
    ensures a.Valid()
  {
    forall i, j | 0 <= i < j < |a.entries| ensures a.entries[i].0 != a.entries[j].0 {
      assert a.entries[i].0 == a.Keys()[i] == b.Keys()[i] == b.entries[i].0;
      assert a.entries[j].0 == a.Keys()[j] == b.Keys()[j] == b.entries[j].0;
    }
  }
}
