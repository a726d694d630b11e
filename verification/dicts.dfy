/**
  An insertion-ordered dictionary with string keys, as a Python `dict` is:
  entries are kept in the order their keys were first inserted, and
  assigning to a present key changes its value in place.
 */
module Dicts {
  import opened Wrappers

  type Dict<V> = seq<(string, V)>

  function Keys<V>(d: Dict<V>): seq<string>
  {
    seq(|d|, i requires 0 <= i < |d| => d[i].0)
  }

  predicate Distinct(ks: seq<string>)
  {
    forall i, j | 0 <= i < j < |ks| :: ks[i] != ks[j]
  }

  /** A real Python dict never holds a key twice. */
  predicate Wf<V>(d: Dict<V>)
  {
    Distinct(Keys(d))
  }

  /** `key in tm and tm[key]`: the key is present and its text is truthy, that is non-empty. */
  predicate Hit(tm: Dict<string>, key: string)
  {
    Get(tm, key).Some? && Get(tm, key).value != ""
  }

  /** `d[k]` when `k in d`, None otherwise. */
  function Get<V>(d: Dict<V>, k: string): (r: Option<V>)
    ensures r.None? <==> k !in Keys(d)
    ensures r.Some? ==> (k, r.value) in d
  {
    if d == [] then None
    else
      assert Keys(d) == [d[0].0] + Keys(d[1..]);
      if d[0].0 == k then Some(d[0].1) else Get(d[1..], k)
  }

  /** `d[k] = v`: a present key keeps its position and takes the new value; a new key goes last. */
  function Put<V>(d: Dict<V>, k: string, v: V): (r: Dict<V>)
    ensures Get(r, k) == Some(v)
    ensures forall k' | k' != k :: Get(r, k') == Get(d, k')
  {
    if d == [] then [(k, v)]
    else if d[0].0 == k then [(k, v)] + d[1..]
    else [d[0]] + Put(d[1..], k, v)
  }

  /** A present key keeps the key order; a new key is added last. */
  lemma {:induction false} PutKeys<V>(d: Dict<V>, k: string, v: V)
    ensures Keys(Put(d, k, v)) == if k in Keys(d) then Keys(d) else Keys(d) + [k]
  {
    if d != [] {
      var tail := Keys(d[1..]);
      assert Keys(d) == [d[0].0] + tail;
      if d[0].0 == k {
        assert Keys([(k, v)] + d[1..]) == [k] + tail;
      } else {
        PutKeys(d[1..], k, v);
        PutKeysStep(d, k, v);
      }
    }
  }

  /** The step of `PutKeys` past a first entry whose key is not `k`. */
  lemma PutKeysStep<V>(d: Dict<V>, k: string, v: V)
    requires d != [] && d[0].0 != k
    requires Keys(Put(d[1..], k, v)) == if k in Keys(d[1..]) then Keys(d[1..]) else Keys(d[1..]) + [k]
    ensures Keys(Put(d, k, v)) == if k in Keys(d) then Keys(d) else Keys(d) + [k]
  {
    var head, tail := d[0].0, Keys(d[1..]);
    var rest := Put(d[1..], k, v);
    KeysCons(d);
    KeysCons([d[0]] + rest);
    assert ([d[0]] + rest)[1..] == rest;
    assert k in Keys(d) <==> k in tail;
    if k !in tail {
      ConcatAssoc([head], tail, [k]);
    }
  }

  lemma KeysCons<V>(d: Dict<V>)
    requires d != []
    ensures Keys(d) == [d[0].0] + Keys(d[1..])
  {
  }

  lemma {:induction false} PutNew<V>(d: Dict<V>, k: string, v: V)
    requires k !in Keys(d)
    ensures Put(d, k, v) == d + [(k, v)]
  {
    if d != [] {
      var rest := d[1..];
      assert Keys(d)[0] == d[0].0;
      assert Keys(rest) == Keys(d)[1..];
      PutNew(rest, k, v);
      assert Put(d, k, v) == [d[0]] + (rest + [(k, v)]);
      ConcatAssoc([d[0]], rest, [(k, v)]);
      assert [d[0]] + rest == d;
    }
  }

  /** Assignment keeps a dict free of repeated keys. */
  lemma PutWf<V>(d: Dict<V>, k: string, v: V)
    requires Wf(d)
    ensures Wf(Put(d, k, v))
  {
    PutKeys(d, k, v);
    var ks := Keys(Put(d, k, v));
    if k !in Keys(d) {
      forall i, j | 0 <= i < j < |ks|
        ensures ks[i] != ks[j]
      {
        if j == |ks| - 1 {
          assert ks[i] == Keys(d)[i];
        } else {
          assert ks[i] == Keys(d)[i] && ks[j] == Keys(d)[j];
        }
      }
    }
  }

  /** The keys of `ks` with every repeat dropped, each kept at its first position. */
  function Dedup(ks: seq<string>): (r: seq<string>)
    ensures Distinct(r)
    ensures forall k :: k in r <==> k in ks
  {
    if ks == [] then []
    else
      var init := Dedup(ks[..|ks| - 1]);
      assert forall k :: k in ks <==> k in ks[..|ks| - 1] || k == ks[|ks| - 1];
      if ks[|ks| - 1] in init then init else init + [ks[|ks| - 1]]
  }

  /** The value written last under `k` in the sequence of writes `e`. */
  function LastValue<V>(e: Dict<V>, k: string): V
    requires k in Keys(e)
  {
    var n := |e| - 1;
    assert Keys(e) == Keys(e[..n]) + [e[n].0];
    if e[n].0 == k then e[n].1 else LastValue(e[..n], k)
  }

  /**
    `d.update(e)`: the writes `d[k] = v` for every entry of `e`, in order.
    A key of `e` takes the value it was given last; other keys keep theirs.
   */
  function Update<V>(d: Dict<V>, e: Dict<V>): (r: Dict<V>)
    ensures forall k :: Get(r, k) == if k in Keys(e) then Some(LastValue(e, k)) else Get(d, k)
  {
    if e == [] then d
    else
      var n := |e| - 1;
      assert Keys(e) == Keys(e[..n]) + [e[n].0];
      Put(Update(d, e[..n]), e[n].0, e[n].1)
  }

  /** Updating a dict without repeated keys gives one, whose keys are the old ones followed by the new ones in first-write order. */
  lemma {:induction false} UpdateWf<V>(d: Dict<V>, e: Dict<V>)
    requires Wf(d)
    ensures Wf(Update(d, e)) && Keys(Update(d, e)) == Dedup(Keys(d) + Keys(e))
  {
    if e == [] {
      assert Keys(d) + Keys(e) == Keys(d);
      DistinctDedup(Keys(d));
    } else {
      var n := |e| - 1;
      var prev := Update(d, e[..n]);
      UpdateWf(d, e[..n]);
      KeysSnoc(e);
      var ks := Keys(d) + Keys(e);
      assert ks == (Keys(d) + Keys(e[..n])) + [e[n].0];
      assert ks[..|ks| - 1] == Keys(d) + Keys(e[..n]);
      PutWf(prev, e[n].0, e[n].1);
      PutKeys(prev, e[n].0, e[n].1);
    }
  }

  lemma DistinctDedup(ks: seq<string>)
    requires Distinct(ks)
    ensures Dedup(ks) == ks
  {
    if ks != [] {
      DistinctDedup(ks[..|ks| - 1]);
    }
  }

  /** Applying two batches of writes one after the other is applying their concatenation. */
  lemma {:induction false} UpdateConcat<V>(d: Dict<V>, a: Dict<V>, b: Dict<V>)
    ensures Update(d, a + b) == Update(Update(d, a), b)
  {
    if b == [] {
      assert a + b == a;
    } else {
      var n := |b| - 1;
      assert (a + b)[..|a + b| - 1] == a + b[..n];
      assert (a + b)[|a + b| - 1] == b[n];
      UpdateConcat(d, a, b[..n]);
    }
  }

  /** Writing entries whose keys are all different into an empty dict rebuilds them exactly. */
  lemma {:induction false} UpdateOfDistinct<V>(l: Dict<V>)
    requires Wf(l)
    ensures Update([], l) == l
  {
    if l != [] {
      var n := |l| - 1;
      assert Keys(l) == Keys(l[..n]) + [l[n].0];
      assert Keys(l[..n]) == Keys(l)[..n];
      assert l[..n] + [l[n]] == l;
      WfPrefix(l);
      UpdateOfDistinct(l[..n]);
      PutNew(l[..n], l[n].0, l[n].1);
    }
  }

  lemma ConcatAssoc<T>(a: seq<T>, b: seq<T>, c: seq<T>)
    ensures a + (b + c) == (a + b) + c
  {
  }

  /** In a dict without repeated keys, every entry is what a lookup of its key finds. */
  lemma {:induction false} GetOfEntry<V>(d: Dict<V>, k: string, v: V)
    requires Wf(d) && (k, v) in d
    ensures Get(d, k) == Some(v)
  {
    assert Keys(d) == [d[0].0] + Keys(d[1..]);
    assert Keys(d[1..]) == Keys(d)[1..];
    if d[0] != (k, v) {
      assert (k, v) in d[1..];
      var i :| 0 <= i < |d[1..]| && d[1..][i] == (k, v);
      assert Keys(d)[i + 1] == k;
      assert d[0].0 != k by { assert Keys(d)[0] == d[0].0; }
      GetOfEntry(d[1..], k, v);
    }
  }

  lemma DistinctConcat(a: seq<string>, b: seq<string>)
    requires Distinct(a) && Distinct(b)
    requires forall k | k in a :: k !in b
    ensures Distinct(a + b)
  {
    var c := a + b;
    forall i, j | 0 <= i < j < |c|
      ensures c[i] != c[j]
    {
      if j >= |a| && i < |a| {
        assert c[i] in a && c[j] == b[j - |a|];
      } else if i >= |a| {
        assert c[i] == b[i - |a|] && c[j] == b[j - |a|];
      }
    }
  }

  /** The dict with every value passed through `f`, keys and order kept. */
  function MapValues<V, W>(d: Dict<V>, f: V -> W): (r: Dict<W>)
    ensures Keys(r) == Keys(d)
    ensures forall k :: Get(r, k) == if Get(d, k).Some? then Some(f(Get(d, k).value)) else None
  {
    if d == [] then []
    else
      var rest := MapValues(d[1..], f);
      assert Keys(d) == [d[0].0] + Keys(d[1..]);
      assert Keys([(d[0].0, f(d[0].1))] + rest) == [d[0].0] + Keys(rest);
      [(d[0].0, f(d[0].1))] + rest
  }

  /** Applying at least one write leaves a dict non-empty. */
  lemma UpdateNonEmpty<V>(d: Dict<V>, e: Dict<V>)
    ensures Update(d, e) == [] ==> e == []
  {
    if e != [] {
      assert Keys(e)[0] == e[0].0;
      assert Get(Update(d, e), e[0].0).Some?;
    }
  }

  lemma KeysConcat<V>(x: Dict<V>, y: Dict<V>)
    ensures Keys(x + y) == Keys(x) + Keys(y)
  {
  }

  lemma KeysSnoc<V>(d: Dict<V>)
    requires d != []
    ensures Keys(d) == Keys(d[..|d| - 1]) + [d[|d| - 1].0]
    ensures Keys(d[..|d| - 1]) == Keys(d)[..|d| - 1]
  {
  }

  /** Dropping the last entry of a dict without repeated keys leaves one, and that key was new. */
  lemma WfPrefix<V>(d: Dict<V>)
    requires Wf(d) && d != []
    ensures Wf(d[..|d| - 1])
    ensures d[|d| - 1].0 !in Keys(d[..|d| - 1])
  {
    var n := |d| - 1;
    KeysSnoc(d);
    forall i | 0 <= i < n
      ensures Keys(d[..n])[i] != d[n].0
    {
      assert Keys(d)[i] != Keys(d)[n];
    }
    forall i, j | 0 <= i < j < n
      ensures Keys(d[..n])[i] != Keys(d[..n])[j]
    {
      assert Keys(d)[i] != Keys(d)[j];
    }
  }
}
