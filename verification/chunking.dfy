/** `chunk_dict` (translate.py lines 25-32) and the chunk count the job prints (line 150). */
module Chunking {
  import opened Dicts

  /** The chunks laid end to end. */
  function Flatten<V>(cs: seq<Dict<V>>): Dict<V>
  {
    if cs == [] then [] else cs[0] + Flatten(cs[1..])
  }

  /**
    Consecutive runs of at most `size` entries, in order. A size of zero
    takes nothing from the iterator, so no chunk is produced at all.
   */
  function ChunkDict<V>(d: Dict<V>, size: nat): (cs: seq<Dict<V>>)
    ensures size == 0 ==> cs == []
    ensures size > 0 ==> Flatten(cs) == d
    ensures forall i | 0 <= i < |cs| :: 1 <= |cs[i]| <= size
    ensures forall i | 0 <= i < |cs| - 1 :: |cs[i]| == size
    decreases |d|
  {
    if size == 0 || d == [] then []
    else
      var n := if |d| < size then |d| else size;
      assert d[..n] + d[n..] == d;
      [d[..n]] + ChunkDict(d[n..], size)
  }

  /** There are ceil(|d| / size) chunks. */
  lemma {:induction false} ChunkDictCount<V>(d: Dict<V>, size: nat)
    requires size > 0
    ensures (|ChunkDict(d, size)| - 1) * size < |d| <= |ChunkDict(d, size)| * size
    decreases |d|
  {
    if d == [] {
    } else if |d| <= size {
      assert ChunkDict(d[|d|..], size) == [];
      assert |ChunkDict(d, size)| == 1;
    } else {
      var c := |ChunkDict(d[size..], size)|;
      ChunkDictCount(d[size..], size);
      assert |ChunkDict(d, size)| == c + 1;
      MulShift(c, size);
    }
  }

  lemma MulShift(c: int, s: int)
    ensures (c + 1) * s == c * s + s
    ensures (c - 1) * s == c * s - s
  {
  }

  /** Python's `a // b`, which rounds toward negative infinity. */
  function FloorDiv(a: int, b: int): (q: int)
    requires b != 0
    ensures b > 0 ==> q * b <= a < q * b + b
    ensures b < 0 ==> q * b >= a > q * b + b
  {
    if b > 0 then a / b else (-a) / (-b)
  }

  /** `-(total_fields // -MAX_FIELDS_PER_CHUNK)` (line 150). */
  function ChunkCount(n: nat, size: nat): int
    requires size > 0
  {
    -FloorDiv(n, -(size as int))
  }

  lemma MulMono(x: int, y: int, s: int)
    requires x <= y && s > 0
    ensures x * s <= y * s
  {
    assert (y - x) * s >= 0;
    assert (y - x) * s == y * s - x * s;
  }

  /** At most one count `c` satisfies `(c - 1) * size < n <= c * size`. */
  lemma CeilingUnique(n: int, size: int, a: int, b: int)
    requires size > 0
    requires (a - 1) * size < n <= a * size
    requires (b - 1) * size < n <= b * size
    ensures a == b
  {
    if a < b {
      MulMono(a, b - 1, size);
    } else if b < a {
      MulMono(b, a - 1, size);
    }
  }

  /** The printed chunk count is the number of chunks `chunk_dict` yields: ceil(n / size). */
  lemma ChunkCountMatches<V>(d: Dict<V>, size: nat)
    requires size > 0
    ensures |ChunkDict(d, size)| == ChunkCount(|d|, size)
  {
    ChunkDictCount(d, size);
    var q := FloorDiv(|d|, -(size as int));
    var c := -q;
    assert c * size == q * -(size as int) by { MulNegate(q, size); }
    assert (c - 1) * size < |d| <= c * size by { MulShift(c, size); }
    CeilingUnique(|d|, size, |ChunkDict(d, size)|, c);
  }

  lemma MulNegate(q: int, s: int)
    ensures (-q) * s == q * -s
  {
  }

  /** The chunks of a dict without repeated keys have pairwise disjoint key sets. */
  lemma {:induction false} ChunksDisjoint<V>(cs: seq<Dict<V>>, a: nat, b: nat, k: string)
    requires Wf(Flatten(cs))
    requires a < |cs| && b < |cs| && a != b
    ensures k !in Keys(cs[a]) || k !in Keys(cs[b])
    decreases |cs|
  {
    var rest := Flatten(cs[1..]);
    assert Keys(Flatten(cs)) == Keys(cs[0]) + Keys(rest);
    assert Keys(rest) == Keys(Flatten(cs))[|cs[0]|..];
    if a == 0 || b == 0 {
      var c := if a == 0 then b else a;
      FlattenHolds(cs[1..], c - 1, k);
      if k in Keys(cs[0]) {
        var i :| 0 <= i < |cs[0]| && Keys(cs[0])[i] == k;
        assert Keys(Flatten(cs))[i] == k;
        forall j | 0 <= j < |rest|
          ensures Keys(rest)[j] != k
        {
          assert Keys(Flatten(cs))[|cs[0]| + j] == Keys(rest)[j];
        }
      }
    } else {
      ChunksDisjoint(cs[1..], a - 1, b - 1, k);
    }
  }

  /** Each chunk of a dict without repeated keys has no repeated key either. */
  lemma {:induction false} ChunkWf<V>(cs: seq<Dict<V>>, l: nat)
    requires Wf(Flatten(cs)) && l < |cs|
    ensures Wf(cs[l])
    decreases |cs|
  {
    var all := Keys(Flatten(cs));
    var first, rest := Keys(cs[0]), Keys(Flatten(cs[1..]));
    assert all == first + rest;
    if l == 0 {
      forall i, j | 0 <= i < j < |first|
        ensures first[i] != first[j]
      {
        assert all[i] == first[i] && all[j] == first[j];
      }
    } else {
      forall i, j | 0 <= i < j < |rest|
        ensures rest[i] != rest[j]
      {
        assert all[|first| + i] == rest[i] && all[|first| + j] == rest[j];
      }
      assert cs[1..][l - 1] == cs[l];
      ChunkWf(cs[1..], l - 1);
    }
  }

  /** A key of a chunk is a key of the flattened chunks. */
  lemma {:induction false} FlattenHolds<V>(cs: seq<Dict<V>>, b: nat, k: string)
    requires b < |cs|
    ensures k in Keys(cs[b]) ==> k in Keys(Flatten(cs))
    decreases |cs|
  {
    assert Keys(Flatten(cs)) == Keys(cs[0]) + Keys(Flatten(cs[1..]));
    if b > 0 {
      FlattenHolds(cs[1..], b - 1, k);
    }
  }

  /** Every key of the flattened chunks is a key of some chunk. */
  lemma {:induction false} FlattenedKeyChunked<V>(cs: seq<Dict<V>>, k: string)
    requires k in Keys(Flatten(cs))
    ensures exists b | 0 <= b < |cs| :: k in Keys(cs[b])
    decreases |cs|
  {
    assert Keys(Flatten(cs)) == Keys(cs[0]) + Keys(Flatten(cs[1..]));
    if k !in Keys(cs[0]) {
      FlattenedKeyChunked(cs[1..], k);
      var b :| 0 <= b < |cs[1..]| && k in Keys(cs[1..][b]);
      assert cs[1..][b] == cs[b + 1];
    }
  }

  lemma FlattenLength<V>(cs: seq<Dict<V>>)
    ensures |cs| == 2 ==> |Flatten(cs)| == |cs[0]| + |cs[1]|
  {
    if |cs| == 2 {
      assert Flatten(cs[1..]) == cs[1] + Flatten(cs[2..]);
    }
  }
}
