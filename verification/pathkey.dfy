/**
  The path keys the walk builds while it descends (translate.py lines 56
  and 73). An object key `k` extends the prefix `p` to `p_k`, or to `k`
  when `p` is empty; an array index `i` appends `[i]`. The walk never
  parses a key back; `Decode` exists here only to prove that, for keys
  free of separators, different routes never share a key.
 */
module PathKey {
  import opened Wrappers

  /** One step from a container to a child: an object key or an array index. */
  datatype Step = Key(name: string) | Index(pos: nat)

  /** The key of the object child `k` under the prefix `parent` (line 56). */
  function ChildKey(parent: string, k: string): string
  {
    if parent == "" then k else parent + "_" + k
  }

  /** The key of the array element `i` under the prefix `parent` (line 73). */
  function IndexKey(parent: string, i: nat): string
  {
    parent + "[" + DecimalString(i) + "]"
  }

  function Extend(parent: string, s: Step): string
  {
    match s
    case Key(k) => ChildKey(parent, k)
    case Index(i) => IndexKey(parent, i)
  }

  /** The key the walk holds after following `route` from a node whose key is `p`. */
  function EncodeFrom(p: string, route: seq<Step>): string
    decreases |route|
  {
    if route == [] then p else EncodeFrom(Extend(p, route[0]), route[1..])
  }

  /** The key of the location reached by `route` from the document root. */
  function Encode(route: seq<Step>): string
  {
    EncodeFrom("", route)
  }

  predicate IsDigit(c: char)
  {
    '0' <= c <= '9'
  }

  predicate AllDigits(s: string)
  {
    forall i | 0 <= i < |s| :: IsDigit(s[i])
  }

  /** Python's `f"{i}"` for a non-negative integer: decimal digits, no leading zero. */
  function DecimalString(n: nat): (r: string)
    ensures r != "" && AllDigits(r)
    ensures |r| > 1 ==> r[0] != '0'
  {
    var d := "0123456789"[n % 10];
    if n < 10 then [d] else DecimalString(n / 10) + [d]
  }

  /** Reads a string of decimal digits back as a number. */
  function DecimalValue(s: string): nat
    requires AllDigits(s)
  {
    if s == "" then 0
    else DecimalValue(s[..|s| - 1]) * 10 + (s[|s| - 1] as int - '0' as int)
  }

  lemma {:induction false} DecimalRoundTrip(n: nat)
    ensures DecimalValue(DecimalString(n)) == n
  {
    var s := DecimalString(n);
    if n >= 10 {
      DecimalRoundTrip(n / 10);
      assert s[..|s| - 1] == DecimalString(n / 10);
    }
  }

  predicate IsSeparator(c: char)
  {
    c == '_' || c == '['
  }

  /** An object key that cannot be confused with the path-key syntax. */
  predicate SafeKey(k: string)
  {
    k != "" && forall i | 0 <= i < |k| :: !IsSeparator(k[i])
  }

  predicate SafeRoute(route: seq<Step>)
  {
    forall i | 0 <= i < |route| :: route[i].Key? ==> SafeKey(route[i].name)
  }

  /** The position of the last `_` or `[` in `s`. */
  function LastSeparator(s: string): (r: Option<nat>)
    ensures r.None? ==> forall i | 0 <= i < |s| :: !IsSeparator(s[i])
    ensures r.Some? ==> r.value < |s| && IsSeparator(s[r.value])
    ensures r.Some? ==> forall i | r.value < i < |s| :: !IsSeparator(s[i])
  {
    if s == "" then None
    else if IsSeparator(s[|s| - 1]) then Some(|s| - 1)
    else LastSeparator(s[..|s| - 1])
  }

  /** Splits a key at its last separator, the inverse of `Extend` on well-formed keys. */
  function Decode(s: string): seq<Step>
    decreases |s|
  {
    match LastSeparator(s)
    case None => if s == "" then [] else [Key(s)]
    case Some(j) =>
      if s[j] == '[' && j + 2 <= |s| && AllDigits(s[j + 1..|s| - 1]) then
        Decode(s[..j]) + [Index(DecimalValue(s[j + 1..|s| - 1]))]
      else
        Decode(s[..j]) + [Key(s[j + 1..])]
  }

  lemma {:induction false} EncodeFromSnoc(p: string, route: seq<Step>, s: Step)
    ensures EncodeFrom(p, route + [s]) == Extend(EncodeFrom(p, route), s)
    decreases |route|
  {
    if route != [] {
      assert (route + [s])[1..] == route[1..] + [s];
      EncodeFromSnoc(Extend(p, route[0]), route[1..], s);
    }
  }

  lemma {:induction false} LastSeparatorAt(a: string, c: char, b: string)
    requires IsSeparator(c)
    requires forall i | 0 <= i < |b| :: !IsSeparator(b[i])
    ensures LastSeparator(a + [c] + b) == Some(|a|)
    decreases |b|
  {
    var s := a + [c] + b;
    if b != [] {
      var n := |b| - 1;
      assert s[|s| - 1] == b[n];
      assert s[..|s| - 1] == a + [c] + b[..n];
      LastSeparatorAt(a, c, b[..n]);
    }
  }

  /** Decoding the key of a route whose object keys are safe gives the route back. */
  lemma {:induction false} DecodeEncode(route: seq<Step>)
    requires SafeRoute(route)
    ensures Decode(Encode(route)) == route
    decreases |route|
  {
    if route != [] {
      var n := |route| - 1;
      var init, last := route[..n], route[n];
      assert route == init + [last];
      assert SafeRoute(init);
      DecodeEncode(init);
      EncodeFromSnoc("", init, last);
      var e := Encode(init);
      match last
      case Key(k) =>
        if e == "" {
          assert init == [] by { assert Decode("") == []; }
          DecodeRootKey(k);
        } else {
          DecodeChildKey(e, k);
        }
      case Index(i) =>
        DecodeIndexKey(e, i);
    }
  }

  lemma DecodeRootKey(k: string)
    requires SafeKey(k)
    ensures Decode(ChildKey("", k)) == [Key(k)]
  {
    assert ChildKey("", k) == k;
    assert LastSeparator(k) == None;
  }

  lemma DecodeChildKey(e: string, k: string)
    requires SafeKey(k) && e != ""
    ensures Decode(ChildKey(e, k)) == Decode(e) + [Key(k)]
  {
    var s := e + "_" + k;
    assert ChildKey(e, k) == s;
    assert s == e + ['_'] + k;
    LastSeparatorAt(e, '_', k);
    assert s[..|e|] == e;
    assert s[|e| + 1..] == k;
  }

  lemma DecodeIndexKey(e: string, i: nat)
    ensures Decode(IndexKey(e, i)) == Decode(e) + [Index(i)]
  {
    var d := DecimalString(i);
    var s := e + "[" + d + "]";
    assert IndexKey(e, i) == s;
    assert s == e + ['['] + (d + "]");
    LastSeparatorAt(e, '[', d + "]");
    assert s[..|e|] == e;
    assert s[|e| + 1..|s| - 1] == d;
    DecimalRoundTrip(i);
  }

  /** Routes whose object keys are safe have distinct keys exactly when they differ. */
  lemma EncodeInjective(r1: seq<Step>, r2: seq<Step>)
    requires SafeRoute(r1) && SafeRoute(r2)
    ensures Encode(r1) == Encode(r2) <==> r1 == r2
  {
    DecodeEncode(r1);
    DecodeEncode(r2);
  }

  /** Without the hypothesis keys collide: an object key holding `_` ... */
  lemma UnderscoreKeyCollides()
    ensures Encode([Key("a_b"), Key("name")]) == Encode([Key("a"), Key("b"), Key("name")]) == "a_b_name"
  {
  }

  /** ... an object key holding `[` ... */
  lemma BracketKeyCollides()
    ensures Encode([Key("x[0]")]) == Encode([Key("x"), Index(0)]) == "x[0]"
  {
    assert DecimalString(0) == "0";
  }

  /** ... and an empty key at the root, which leaves the prefix empty. */
  lemma EmptyKeyCollides()
    ensures Encode([Key(""), Key("name")]) == Encode([Key("name")]) == "name"
  {
  }
}
