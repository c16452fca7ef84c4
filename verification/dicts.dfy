/** Python dictionaries as the backend uses them: insertion-ordered, one entry per key,
    `d[k] = v` replacing a value in place, and the `d.setdefault(k, []).append(v)`
    grouping idiom. A dictionary is a sequence of (key, value) pairs. */
module Dicts {
  import opened Wrappers

  type Dict<K, V> = seq<(K, V)>

  function KeysOf<K(==,!new), V>(d: seq<(K, V)>): (r: seq<K>)
    ensures |r| == |d| && forall i :: 0 <= i < |d| ==> r[i] == d[i].0
  {
    seq(|d|, i requires 0 <= i < |d| => d[i].0)
  }

  lemma KeysOfSnoc<K(!new), V>(ps: seq<(K, V)>)
    requires ps != []
    ensures KeysOf(ps) == KeysOf(ps[..|ps| - 1]) + [ps[|ps| - 1].0]
  {
  }

  predicate DistinctKeys<K(==,!new), V>(d: seq<(K, V)>) {
    forall i, j :: 0 <= i < j < |d| ==> d[i].0 != d[j].0
  }

  /** The position of key `k` in `d`, the first one if several, or -1. */
  function IndexOf<K(==,!new), V>(d: Dict<K, V>, k: K): (i: int)
    ensures -1 <= i < |d|
    ensures i >= 0 ==> d[i].0 == k && forall j :: 0 <= j < i ==> d[j].0 != k
    ensures i == -1 ==> forall j :: 0 <= j < |d| ==> d[j].0 != k
  {
    if d == [] then -1
    else if d[0].0 == k then 0
    else
      var i := IndexOf(d[1..], k);
      if i < 0 then -1 else i + 1
  }

  lemma IndexOfKeys<K(!new), V>(d: Dict<K, V>, k: K)
    ensures IndexOf(d, k) >= 0 <==> k in KeysOf(d)
  {
    if k in KeysOf(d) {
      var j :| 0 <= j < |d| && KeysOf(d)[j] == k;
    }
  }

  /** `d.get(k)` */
  function Get<K(==,!new), V>(d: Dict<K, V>, k: K): (r: Option<V>)
    ensures r.Some? <==> k in KeysOf(d)
  {
    IndexOfKeys(d, k);
    var i := IndexOf(d, k);
    if i < 0 then None else Some(d[i].1)
  }

  /** `d[k] = v`: an existing key keeps its position, a new key goes last. */
  function Put<K(==,!new), V>(d: Dict<K, V>, k: K, v: V): (r: Dict<K, V>)
    ensures KeysOf(r) == if k in KeysOf(d) then KeysOf(d) else KeysOf(d) + [k]
    ensures Get(r, k) == Some(v)
    ensures forall k' :: k' != k ==> Get(r, k') == Get(d, k')
  {
    IndexOfKeys(d, k);
    var i := IndexOf(d, k);
    var r := if i < 0 then d + [(k, v)] else d[i := (k, v)];
    FirstMatch(r, k, if i < 0 then |d| else i);
    forall k' | k' != k ensures IndexOf(r, k') == IndexOf(d, k') {
      var j := IndexOf(d, k');
      if j >= 0 {
        FirstMatch(r, k', j);
      } else {
        NoMatch(r, k');
      }
    }
    r
  }

  lemma FirstMatch<K(!new), V>(d: Dict<K, V>, k: K, i: int)
    requires 0 <= i < |d| && d[i].0 == k && forall j :: 0 <= j < i ==> d[j].0 != k
    ensures IndexOf(d, k) == i
  {
  }

  lemma NoMatch<K(!new), V>(d: Dict<K, V>, k: K)
    requires forall j :: 0 <= j < |d| ==> d[j].0 != k
    ensures IndexOf(d, k) == -1
  {
  }

  lemma GetAt<K(!new), V>(d: Dict<K, V>, i: int)
    requires DistinctKeys(d) && 0 <= i < |d|
    ensures Get(d, d[i].0) == Some(d[i].1)
  {
    if i > 0 {
      assert d[1..][i - 1] == d[i];
      GetAt(d[1..], i - 1);
    }
  }

  lemma {:induction false} PutDistinct<K(!new), V>(d: Dict<K, V>, k: K, v: V)
    requires DistinctKeys(d)
    ensures DistinctKeys(Put(d, k, v))
  {
    var r := Put(d, k, v);
    var kr := KeysOf(r);
    forall i, j | 0 <= i < j < |r| ensures r[i].0 != r[j].0 {
      assert kr[i] == r[i].0 && kr[j] == r[j].0;
      if j < |d| {
        assert kr[i] == d[i].0 && kr[j] == d[j].0;
      } else {
        assert kr[i] == KeysOf(d)[i];
      }
    }
  }

  /** `d.setdefault(k, []).append(v)` */
  function AppendTo<K(==,!new), V>(d: Dict<K, seq<V>>, k: K, v: V): Dict<K, seq<V>> {
    Put(d, k, (if Get(d, k).Some? then Get(d, k).value else []) + [v])
  }

  /** The values paired with key `k`, in their order in `ps`. */
  function Bucket<K(==,!new), V>(ps: seq<(K, V)>, k: K): (r: seq<V>)
    ensures |r| > 0 <==> k in KeysOf(ps)
  {
    if ps == [] then []
    else
      var init := ps[..|ps| - 1];
      assert KeysOf(ps) == KeysOf(init) + [ps[|ps| - 1].0];
      Bucket(init, k) + (if ps[|ps| - 1].0 == k then [ps[|ps| - 1].1] else [])
  }

  lemma {:induction false} BucketMembers<K(!new), V>(ps: seq<(K, V)>, k: K, v: V)
    ensures v in Bucket(ps, k) <==> (k, v) in ps
  {
    if ps != [] {
      var init := ps[..|ps| - 1];
      BucketMembers(init, k, v);
      assert ps == init + [ps[|ps| - 1]];
    }
  }

  /** The keys of `ps`, each once, in order of first appearance. */
  function FirstKeys<K(==,!new), V>(ps: seq<(K, V)>): (r: seq<K>)
    ensures forall k :: k in r <==> k in KeysOf(ps)
  {
    if ps == [] then []
    else
      var init := ps[..|ps| - 1];
      var r0 := FirstKeys(init);
      assert KeysOf(ps) == KeysOf(init) + [ps[|ps| - 1].0];
      if ps[|ps| - 1].0 in r0 then r0 else r0 + [ps[|ps| - 1].0]
  }

  /** The dictionary that the `setdefault(k, []).append(v)` loop builds from `ps`. */
  function GroupBy<K(==,!new), V>(ps: seq<(K, V)>): Dict<K, seq<V>> {
    if ps == [] then [] else AppendTo(GroupBy(ps[..|ps| - 1]), ps[|ps| - 1].0, ps[|ps| - 1].1)
  }

  lemma GroupBySnoc<K(!new), V>(ps: seq<(K, V)>, k: K, v: V)
    ensures GroupBy(ps + [(k, v)]) == AppendTo(GroupBy(ps), k, v)
  {
    assert (ps + [(k, v)])[..|ps|] == ps;
  }

  /** Grouping puts each key once, in order of first appearance, and maps it to exactly the
      values paired with it in `ps`, in their original order. */
  lemma {:induction false} GroupByContents<K(!new), V>(ps: seq<(K, V)>)
    ensures DistinctKeys(GroupBy(ps))
    ensures KeysOf(GroupBy(ps)) == FirstKeys(ps)
    ensures forall k :: Get(GroupBy(ps), k) == if k in KeysOf(ps) then Some(Bucket(ps, k)) else None
  {
    if ps != [] {
      var init := ps[..|ps| - 1];
      var k, v := ps[|ps| - 1].0, ps[|ps| - 1].1;
      var g0 := GroupBy(init);
      GroupByContents(init);
      var was := if Get(g0, k).Some? then Get(g0, k).value else [];
      assert GroupBy(ps) == Put(g0, k, was + [v]) by {
        assert GroupBy(ps) == AppendTo(g0, k, v);
      }
      PutDistinct(g0, k, was + [v]);
      KeysOfSnoc(ps);
      assert k in FirstKeys(init) <==> k in KeysOf(g0);
      GroupByGetStep(ps, g0, was);
    }
  }

  lemma GroupByGetStep<K(!new), V>(ps: seq<(K, V)>, g0: Dict<K, seq<V>>, was: seq<V>)
    requires ps != []
    requires forall k :: Get(g0, k) == if k in KeysOf(ps[..|ps| - 1]) then Some(Bucket(ps[..|ps| - 1], k)) else None
    requires was == if Get(g0, ps[|ps| - 1].0).Some? then Get(g0, ps[|ps| - 1].0).value else []
    ensures forall k :: Get(Put(g0, ps[|ps| - 1].0, was + [ps[|ps| - 1].1]), k) ==
                        (if k in KeysOf(ps) then Some(Bucket(ps, k)) else None)
  {
    var init := ps[..|ps| - 1];
    var k, v := ps[|ps| - 1].0, ps[|ps| - 1].1;
    var g := Put(g0, k, was + [v]);
    KeysOfSnoc(ps);
    forall k' ensures Get(g, k') == if k' in KeysOf(ps) then Some(Bucket(ps, k')) else None {
      if k' == k {
        assert Bucket(ps, k) == Bucket(init, k) + [v];
      } else {
        assert Bucket(ps, k') == Bucket(init, k');
        assert k' in KeysOf(ps) <==> k' in KeysOf(init);
      }
    }
  }

  /** The entry of the grouping that holds the j-th pair. */
  lemma GroupOf<K(!new), V>(ps: seq<(K, V)>, j: int) returns (k: int)
    requires 0 <= j < |ps|
    ensures 0 <= k < |GroupBy(ps)| && GroupBy(ps)[k].0 == ps[j].0 && ps[j].1 in GroupBy(ps)[k].1
  {
    GroupByPartition(ps, j);
    k :| 0 <= k < |GroupBy(ps)| && GroupBy(ps)[k].0 == ps[j].0 && ps[j].1 in GroupBy(ps)[k].1;
  }

  /** Entry `i` of the grouping holds the bucket of its own key, and that bucket is never empty. */
  lemma GroupByEntry<K(!new), V>(ps: seq<(K, V)>, i: int)
    requires 0 <= i < |GroupBy(ps)|
    ensures GroupBy(ps)[i].0 in KeysOf(ps)
    ensures GroupBy(ps)[i].1 == Bucket(ps, GroupBy(ps)[i].0) && GroupBy(ps)[i].1 != []
  {
    var g := GroupBy(ps);
    GroupByContents(ps);
    GetAt(g, i);
    assert KeysOf(g)[i] == g[i].0;
  }

  /** An entry of a grouping whose value lists were then transformed by `f`. */
  lemma MapValuesGroupEntry<K(!new), V, W>(ps: seq<(K, V)>, f: seq<V> -> W, e: (K, W))
    requires e in MapValues(GroupBy(ps), f)
    ensures e.0 in KeysOf(ps) && e.1 == f(Bucket(ps, e.0))
  {
    var m := MapValues(GroupBy(ps), f);
    var i :| 0 <= i < |m| && m[i] == e;
    GroupByEntry(ps, i);
  }

  /** `d.items()` of a grouping: every value in `ps` is in the bucket of exactly one entry. */
  lemma GroupByPartition<K(!new), V>(ps: seq<(K, V)>, j: int)
    requires 0 <= j < |ps|
    ensures exists i :: 0 <= i < |GroupBy(ps)| && GroupBy(ps)[i].0 == ps[j].0 && ps[j].1 in GroupBy(ps)[i].1
    ensures forall i :: 0 <= i < |GroupBy(ps)| && ps[j].1 in GroupBy(ps)[i].1 && GroupBy(ps)[i].0 != ps[j].0 ==>
      (GroupBy(ps)[i].0, ps[j].1) in ps
  {
    var g := GroupBy(ps);
    GroupByContents(ps);
    assert KeysOf(ps)[j] == ps[j].0;
    assert ps[j].0 in KeysOf(g);
    var i :| 0 <= i < |g| && KeysOf(g)[i] == ps[j].0;
    GroupByEntry(ps, i);
    BucketMembers(ps, ps[j].0, ps[j].1);
    forall i' | 0 <= i' < |g| && ps[j].1 in g[i'].1 && g[i'].0 != ps[j].0
      ensures (g[i'].0, ps[j].1) in ps
    {
      GroupByEntry(ps, i');
      BucketMembers(ps, g[i'].0, ps[j].1);
    }
  }

  /** `{k: f(v) for k, v in d.items()}` */
  function MapValues<K(==,!new), V, W>(d: Dict<K, V>, f: V -> W): (r: Dict<K, W>)
    ensures KeysOf(r) == KeysOf(d)
    ensures |r| == |d| && forall i :: 0 <= i < |d| ==> r[i] == (d[i].0, f(d[i].1))
  {
    seq(|d|, i requires 0 <= i < |d| => (d[i].0, f(d[i].1)))
  }

  /** `[f(v) for k, v in d.items()]` */
  function MapToSeq<K, V, U>(d: Dict<K, V>, f: V --> U): (r: seq<U>)
    requires forall i :: 0 <= i < |d| ==> f.requires(d[i].1)
    ensures |r| == |d| && forall i :: 0 <= i < |d| ==> r[i] == f(d[i].1)
  {
    seq(|d|, i requires 0 <= i < |d| => f(d[i].1))
  }

  /** Appending one entry appends its image. */
  lemma MapToSeqSnoc<K, V, U>(d: Dict<K, V>, f: V --> U, j: int)
    requires forall i :: 0 <= i < |d| ==> f.requires(d[i].1)
    requires 0 <= j < |d|
    ensures MapToSeq(d[..j + 1], f) == MapToSeq(d[..j], f) + [f(d[j].1)]
  {
    var a := MapToSeq(d[..j + 1], f);
    var b := MapToSeq(d[..j], f) + [f(d[j].1)];
    forall i | 0 <= i < j + 1 ensures a[i] == b[i] {
      assert d[..j + 1][i] == d[i];
      if i < j {
        assert d[..j][i] == d[i];
      }
    }
  }

  /** Lookups depend only on the keys. */
  lemma {:induction false} IndexOfSameKeys<K(!new), V, W>(d1: Dict<K, V>, d2: Dict<K, W>, k: K)
    requires KeysOf(d1) == KeysOf(d2)
    ensures IndexOf(d1, k) == IndexOf(d2, k)
  {
    if d1 != [] {
      assert d1[0].0 == KeysOf(d1)[0] == KeysOf(d2)[0] == d2[0].0;
      assert KeysOf(d1[1..]) == KeysOf(d1)[1..];
      assert KeysOf(d2[1..]) == KeysOf(d2)[1..];
      IndexOfSameKeys(d1[1..], d2[1..], k);
    }
  }

  /** Mapping the values commutes with `d[k] = v`. */
  lemma MapValuesPut<K(!new), V, W>(d: Dict<K, V>, k: K, v: V, f: V -> W)
    ensures MapValues(Put(d, k, v), f) == Put(MapValues(d, f), k, f(v))
  {
    IndexOfSameKeys(d, MapValues(d, f), k);
  }

  /** `d[k] = v` for a key not yet in `d` appends the entry. */
  lemma PutNew<K(!new), V>(d: Dict<K, V>, k: K, v: V)
    requires k !in KeysOf(d)
    ensures Put(d, k, v) == d + [(k, v)]
  {
    IndexOfKeys(d, k);
  }

  /** Mapping the values keeps the keys distinct. */
  lemma MapValuesDistinct<K(!new), V, W>(d: Dict<K, V>, f: V -> W)
    requires DistinctKeys(d)
    ensures DistinctKeys(MapValues(d, f))
  {
  }
}
