/**
  What extraction records: one write per live slot, in document order,
  keyed by the slot's route; and, when the document is well keyed, a
  dict holding exactly one entry per live slot.
 */
module ExtractFacts {
  import opened JsonDoc
  import opened Dicts
  import opened PathKey
  import opened Wrappers
  import opened Traverse
  import opened Locations

  lemma {:induction false} ExpectedConcat(p: string, a: seq<Slot>, b: seq<Slot>)
    ensures Expected(p, a + b) == Expected(p, a) + Expected(p, b)
    decreases |a|
  {
    if a == [] {
      assert a + b == b;
    } else {
      var h := Entry(p, a[0]);
      assert (a + b)[0] == a[0];
      assert (a + b)[1..] == a[1..] + b;
      assert Expected(p, a + b) == h + Expected(p, a[1..] + b);
      assert Expected(p, a) == h + Expected(p, a[1..]);
      ExpectedConcat(p, a[1..], b);
      ConcatAssoc(h, Expected(p, a[1..]), Expected(p, b));
    }
  }

  lemma EncodeFromCons(p: string, s: Step, route: seq<Step>)
    ensures EncodeFrom(p, [s] + route) == EncodeFrom(Extend(p, s), route)
  {
    assert ([s] + route)[1..] == route;
  }

  lemma {:induction false} ExpectedUnder(p: string, s: Step, slots: seq<Slot>)
    ensures Expected(p, Under(s, slots)) == Expected(Extend(p, s), slots)
    decreases |slots|
  {
    if slots != [] {
      assert Under(s, slots)[1..] == Under(s, slots[1..]);
      EncodeFromCons(p, s, slots[0].route);
      ExpectedUnder(p, s, slots[1..]);
    }
  }

  /** The extract walk writes, in order, the stripped text of every live slot under the slot's key. */
  lemma {:induction false} WritesAreExpected(j: Json, p: string)
    ensures Writes(j, p) == Expected(p, Slots(j))
    decreases j
  {
    match j
    case Obj(ms) => MembersWritesAreExpected(ms, p);
    case Arr(xs) => ItemsWritesAreExpected(xs, p, 0);
    case _ =>
  }

  lemma {:induction false} MembersWritesAreExpected(ms: seq<(string, Json)>, p: string)
    ensures MembersWrites(ms, p) == Expected(p, MembersSlots(ms))
    decreases ms
  {
    if ms != [] {
      MemberWritesAreExpected(ms[0], p);
      MembersWritesAreExpected(ms[1..], p);
      ExpectedConcat(p, MemberSlots(ms[0]), MembersSlots(ms[1..]));
    }
  }

  lemma {:induction false} MemberWritesAreExpected(m: (string, Json), p: string)
    ensures MemberWrites(m, p) == Expected(p, MemberSlots(m))
    decreases m
  {
    var (k, v) := m;
    var head: seq<Slot> := if k in TranslatableNames && v.Str? then [Slot([Key(k)], v.text)] else [];
    WritesAreExpected(v, ChildKey(p, k));
    ExpectedUnder(p, Key(k), Slots(v));
    ExpectedConcat(p, head, Under(Key(k), Slots(v)));
    assert EncodeFrom(p, [Key(k)]) == ChildKey(p, k);
  }

  lemma {:induction false} ItemsWritesAreExpected(xs: seq<Json>, p: string, from: nat)
    ensures ItemsWrites(xs, p, from) == Expected(p, ItemsSlots(xs, from))
    decreases xs
  {
    if xs != [] {
      WritesAreExpected(xs[0], IndexKey(p, from));
      ExpectedUnder(p, Index(from), Slots(xs[0]));
      ItemsWritesAreExpected(xs[1..], p, from + 1);
      ExpectedConcat(p, Under(Index(from), Slots(xs[0])), ItemsSlots(xs[1..], from + 1));
    }
  }

  /** No two slots share a route. */
  predicate DistinctRoutes(slots: seq<Slot>)
  {
    forall a, b | 0 <= a < b < |slots| :: slots[a].route != slots[b].route
  }

  /** Every route is non-empty and names only safe object keys. */
  predicate SafeRoutes(slots: seq<Slot>)
  {
    forall a | 0 <= a < |slots| :: slots[a].route != [] && SafeRoute(slots[a].route)
  }

  lemma RoutesConcat(x: seq<Slot>, y: seq<Slot>)
    requires DistinctRoutes(x) && DistinctRoutes(y)
    requires forall a, b | 0 <= a < |x| && 0 <= b < |y| :: x[a].route != y[b].route
    ensures DistinctRoutes(x + y)
  {
    var z := x + y;
    forall a, b | 0 <= a < b < |z|
      ensures z[a].route != z[b].route
    {
      if b < |x| {
        assert z[a] == x[a] && z[b] == x[b];
      } else if a < |x| {
        assert z[a] == x[a] && z[b] == y[b - |x|];
      } else {
        assert z[a] == y[a - |x|] && z[b] == y[b - |x|];
      }
    }
  }

  lemma RoutesUnder(s: Step, slots: seq<Slot>)
    requires DistinctRoutes(slots)
    ensures DistinctRoutes(Under(s, slots))
  {
    var u := Under(s, slots);
    forall a, b | 0 <= a < b < |u|
      ensures u[a].route != u[b].route
    {
      assert u[a].route[1..] == slots[a].route;
      assert u[b].route[1..] == slots[b].route;
    }
  }

  /** In a well-keyed document, slot routes are distinct and safe. */
  lemma {:induction false} SlotRoutes(j: Json)
    requires WellKeyed(j)
    ensures DistinctRoutes(Slots(j)) && SafeRoutes(Slots(j))
    decreases j
  {
    match j
    case Obj(ms) => MembersSlotRoutes(ms);
    case Arr(xs) => ItemsSlotRoutes(xs, 0);
    case _ =>
  }

  lemma {:induction false} MembersSlotRoutes(ms: seq<(string, Json)>)
    requires Wf(ms) && MembersWellKeyed(ms)
    ensures DistinctRoutes(MembersSlots(ms)) && SafeRoutes(MembersSlots(ms))
    ensures forall a | 0 <= a < |MembersSlots(ms)| ::
              MembersSlots(ms)[a].route[0].Key? && MembersSlots(ms)[a].route[0].name in Keys(ms)
    decreases ms
  {
    if ms != [] {
      var x, y := MemberSlots(ms[0]), MembersSlots(ms[1..]);
      assert Keys(ms) == [ms[0].0] + Keys(ms[1..]);
      assert Keys(ms[1..]) == Keys(ms)[1..];
      forall i | 0 <= i < |Keys(ms[1..])|
        ensures Keys(ms[1..])[i] != ms[0].0
      {
        assert Keys(ms[1..])[i] == Keys(ms)[i + 1];
        assert Keys(ms)[0] == ms[0].0;
        assert Distinct(Keys(ms));
      }
      MemberSlotRoutes(ms[0]);
      MembersSlotRoutes(ms[1..]);
      RoutesConcat(x, y);
      assert MembersSlots(ms) == x + y;
      forall a | 0 <= a < |x + y|
        ensures (x + y)[a].route != [] && SafeRoute((x + y)[a].route)
        ensures (x + y)[a].route[0].Key? && (x + y)[a].route[0].name in Keys(ms)
      {
        if a >= |x| { assert (x + y)[a] == y[a - |x|]; }
      }
    }
  }

  lemma {:induction false} MemberSlotRoutes(m: (string, Json))
    requires MemberWellKeyed(m)
    ensures DistinctRoutes(MemberSlots(m)) && SafeRoutes(MemberSlots(m))
    ensures forall a | 0 <= a < |MemberSlots(m)| :: MemberSlots(m)[a].route[0] == Key(m.0)
    decreases m
  {
    var (k, v) := m;
    var head: seq<Slot> := if k in TranslatableNames && v.Str? then [Slot([Key(k)], v.text)] else [];
    var u := Under(Key(k), Slots(v));
    SlotRoutes(v);
    RoutesUnder(Key(k), Slots(v));
    UnderSafe(Key(k), Slots(v));
    assert SafeRoute([Key(k)]);
    RoutesConcat(head, u);
    assert MemberSlots(m) == head + u;
    ConcatSafe(head, u);
  }

  /** Routes below a safe step stay safe, start with that step and are at least two steps long. */
  lemma UnderSafe(s: Step, slots: seq<Slot>)
    requires s.Key? ==> SafeKey(s.name)
    requires SafeRoutes(slots)
    ensures SafeRoutes(Under(s, slots))
    ensures forall a | 0 <= a < |slots| :: Under(s, slots)[a].route[0] == s && |Under(s, slots)[a].route| >= 2
  {
    var u := Under(s, slots);
    forall a | 0 <= a < |u|
      ensures u[a].route != [] && SafeRoute(u[a].route)
    {
      var r := slots[a].route;
      assert u[a].route == [s] + r;
      forall i | 0 <= i < |[s] + r| && ([s] + r)[i].Key?
        ensures SafeKey(([s] + r)[i].name)
      {
        if i > 0 { assert ([s] + r)[i] == r[i - 1]; }
      }
    }
  }

  lemma ConcatSafe(x: seq<Slot>, y: seq<Slot>)
    requires SafeRoutes(x) && SafeRoutes(y)
    ensures SafeRoutes(x + y)
  {
    forall a | 0 <= a < |x + y|
      ensures (x + y)[a].route != [] && SafeRoute((x + y)[a].route)
    {
      if a >= |x| { assert (x + y)[a] == y[a - |x|]; }
    }
  }

  lemma {:induction false} ItemsSlotRoutes(xs: seq<Json>, from: nat)
    requires ItemsWellKeyed(xs)
    ensures DistinctRoutes(ItemsSlots(xs, from)) && SafeRoutes(ItemsSlots(xs, from))
    ensures forall a | 0 <= a < |ItemsSlots(xs, from)| ::
              ItemsSlots(xs, from)[a].route[0].Index? && from <= ItemsSlots(xs, from)[a].route[0].pos
    decreases xs
  {
    if xs != [] {
      var x, y := Under(Index(from), Slots(xs[0])), ItemsSlots(xs[1..], from + 1);
      SlotRoutes(xs[0]);
      RoutesUnder(Index(from), Slots(xs[0]));
      ItemsSlotRoutes(xs[1..], from + 1);
      forall a | 0 <= a < |x|
        ensures x[a].route[0] == Index(from) && SafeRoute(x[a].route)
      {
        assert x[a].route[1..] == Slots(xs[0])[a].route;
      }
      RoutesConcat(x, y);
      forall a | 0 <= a < |x + y|
        ensures (x + y)[a].route != [] && SafeRoute((x + y)[a].route)
        ensures (x + y)[a].route[0].Index? && from <= (x + y)[a].route[0].pos
      {
        if a >= |x| { assert (x + y)[a] == y[a - |x|]; }
      }
    }
  }

  /** Every live slot has its entry in `Expected`. */
  lemma {:induction false} ExpectedHasEntry(p: string, slots: seq<Slot>, i: nat)
    requires i < |slots| && Live(slots[i])
    ensures (EncodeFrom(p, slots[i].route), Strip(slots[i].text)) in Expected(p, slots)
    decreases |slots|
  {
    assert Expected(p, slots) == Entry(p, slots[0]) + Expected(p, slots[1..]);
    if i > 0 {
      assert slots[1..][i - 1] == slots[i];
      ExpectedHasEntry(p, slots[1..], i - 1);
    }
  }

  /** Every entry of `Expected` is the entry of some live slot. */
  lemma {:induction false} ExpectedEntrySource(p: string, slots: seq<Slot>, e: (string, string))
    requires e in Expected(p, slots)
    ensures exists i | 0 <= i < |slots| :: Live(slots[i]) && e == (EncodeFrom(p, slots[i].route), Strip(slots[i].text))
    decreases |slots|
  {
    assert Expected(p, slots) == Entry(p, slots[0]) + Expected(p, slots[1..]);
    if e in Entry(p, slots[0]) {
      assert Live(slots[0]) && e == (EncodeFrom(p, slots[0].route), Strip(slots[0].text));
    } else {
      ExpectedEntrySource(p, slots[1..], e);
      var i :| 0 <= i < |slots[1..]| && Live(slots[1..][i]) && e == (EncodeFrom(p, slots[1..][i].route), Strip(slots[1..][i].text));
      assert slots[i + 1] == slots[1..][i];
    }
  }

  lemma KeysOfEntry(p: string, s: Slot)
    ensures Keys(Entry(p, s)) == if Live(s) then [EncodeFrom(p, s.route)] else []
  {
  }

  /** A key that no slot's route encodes to is not a key of `Expected`. */
  lemma {:induction false} ExpectedKeyAbsent(p: string, slots: seq<Slot>, q: string)
    requires forall a | 0 <= a < |slots| :: EncodeFrom(p, slots[a].route) != q
    ensures q !in Keys(Expected(p, slots))
    decreases |slots|
  {
    if slots != [] {
      assert forall a | 0 <= a < |slots[1..]| :: slots[1..][a] == slots[a + 1];
      ExpectedKeyAbsent(p, slots[1..], q);
      KeysConcat(Entry(p, slots[0]), Expected(p, slots[1..]));
      KeysOfEntry(p, slots[0]);
    }
  }

  /** Distinct safe routes give an `Expected` without repeated keys. */
  lemma {:induction false} ExpectedDistinct(slots: seq<Slot>)
    requires DistinctRoutes(slots) && SafeRoutes(slots)
    ensures Wf(Expected("", slots))
    decreases |slots|
  {
    if slots != [] {
      var rest := slots[1..];
      assert forall a | 0 <= a < |rest| :: rest[a] == slots[a + 1];
      ExpectedDistinct(rest);
      var q := Encode(slots[0].route);
      forall a | 0 <= a < |rest|
        ensures Encode(rest[a].route) != q
      {
        EncodeInjective(rest[a].route, slots[0].route);
      }
      ExpectedKeyAbsent("", rest, q);
      KeysConcat(Entry("", slots[0]), Expected("", rest));
      KeysOfEntry("", slots[0]);
      DistinctConcat(Keys(Entry("", slots[0])), Keys(Expected("", rest)));
    }
  }

  /** When `Expected` is empty, no slot is live. */
  lemma {:induction false} NothingExpected(p: string, slots: seq<Slot>)
    requires Expected(p, slots) == []
    ensures forall i | 0 <= i < |slots| :: !Live(slots[i])
    decreases |slots|
  {
    if slots != [] {
      assert Expected(p, slots) == Entry(p, slots[0]) + Expected(p, slots[1..]);
      assert Entry(p, slots[0]) == [];
      NothingExpected(p, slots[1..]);
      forall i | 1 <= i < |slots|
        ensures !Live(slots[i])
      {
        assert slots[i] == slots[1..][i - 1];
      }
    }
  }

  function LiveCount(slots: seq<Slot>): nat
  {
    if slots == [] then 0 else (if Live(slots[0]) then 1 else 0) + LiveCount(slots[1..])
  }

  lemma {:induction false} ExpectedLength(p: string, slots: seq<Slot>)
    ensures |Expected(p, slots)| == LiveCount(slots)
    decreases |slots|
  {
    if slots != [] {
      ExpectedLength(p, slots[1..]);
    }
  }

  /**
    Exact extraction: in a well-keyed document the extracted dict holds,
    in document order, one entry per live slot (a translatable name whose
    text is not all whitespace), keyed by the slot's path key and holding
    its stripped text, and nothing else.
   */
  lemma ExtractExact(doc: Json)
    requires WellKeyed(doc)
    ensures Extract(doc) == Expected("", Slots(doc))
    ensures Wf(Extract(doc)) && |Extract(doc)| == LiveCount(Slots(doc))
    ensures forall e :: e in Extract(doc) <==>
              exists i | 0 <= i < |Slots(doc)| ::
                Live(Slots(doc)[i]) && e == (Encode(Slots(doc)[i].route), Strip(Slots(doc)[i].text))
    ensures forall i | 0 <= i < |Slots(doc)| && Live(Slots(doc)[i]) ::
              Get(Extract(doc), Encode(Slots(doc)[i].route)) == Some(Strip(Slots(doc)[i].text))
  {
    var slots := Slots(doc);
    WritesAreExpected(doc, "");
    SlotRoutes(doc);
    ExpectedDistinct(slots);
    UpdateOfDistinct(Expected("", slots));
    ExpectedLength("", slots);
    forall e
      ensures e in Extract(doc) <==>
                exists i | 0 <= i < |slots| :: Live(slots[i]) && e == (Encode(slots[i].route), Strip(slots[i].text))
    {
      if e in Extract(doc) {
        ExpectedEntrySource("", slots, e);
      }
      if exists i | 0 <= i < |slots| :: Live(slots[i]) && e == (Encode(slots[i].route), Strip(slots[i].text)) {
        var i :| 0 <= i < |slots| && Live(slots[i]) && e == (Encode(slots[i].route), Strip(slots[i].text));
        ExpectedHasEntry("", slots, i);
      }
    }
    forall i | 0 <= i < |slots| && Live(slots[i])
      ensures Get(Extract(doc), Encode(slots[i].route)) == Some(Strip(slots[i].text))
    {
      ExpectedHasEntry("", slots, i);
      GetOfEntry(Extract(doc), Encode(slots[i].route), Strip(slots[i].text));
    }
  }

  /** The map is empty exactly when no translatable field holds non-blank text (line 139). */
  lemma ExtractEmpty(doc: Json)
    ensures Extract(doc) == [] <==> forall i | 0 <= i < |Slots(doc)| :: !Live(Slots(doc)[i])
  {
    var slots := Slots(doc);
    WritesAreExpected(doc, "");
    UpdateNonEmpty([], Writes(doc, ""));
    if Extract(doc) == [] {
      NothingExpected("", slots);
    }
    if forall i | 0 <= i < |slots| :: !Live(slots[i]) {
      var e := Expected("", slots);
      if e != [] {
        ExpectedEntrySource("", slots, e[0]);
      }
    }
  }

  /**
    Without the well-keyed hypothesis, slots whose keys collide share one
    entry: it sits where the first of them was recorded and holds the
    stripped text of the last one (Python `d[k] = v`).
   */
  lemma ExtractCollisions(doc: Json)
    ensures Keys(Extract(doc)) == Dedup(Keys(Expected("", Slots(doc))))
    ensures forall q :: Get(Extract(doc), q) ==
              if q in Keys(Expected("", Slots(doc))) then Some(LastValue(Expected("", Slots(doc)), q)) else None
  {
    WritesAreExpected(doc, "");
    var e := Expected("", Slots(doc));
    assert Keys<string>([]) + Keys(e) == Keys(e);
    assert Wf<string>([]);
    UpdateWf([], e);
  }

  /** Two sibling routes spelling the same key: `{"a_b": {"name": "x"}, "a": {"b": {"name": "y"}}}`. */
  lemma UnderscoreCollisionExample()
    ensures Extract(Obj([("a_b", Obj([("name", Str("x"))])),
                         ("a", Obj([("b", Obj([("name", Str("y"))]))]))]))
            == [("a_b_name", "y")]
  {
    var first := ("a_b", Obj([("name", Str("x"))]));
    var second := ("a", Obj([("b", Obj([("name", Str("y"))]))]));
    CollidingMembers(first, second);
    SecondValueWins("a_b_name", "x", "y");
  }

  lemma CollidingMembers(first: (string, Json), second: (string, Json))
    requires first == ("a_b", Obj([("name", Str("x"))]))
    requires second == ("a", Obj([("b", Obj([("name", Str("y"))]))]))
    ensures Writes(Obj([first, second]), "") == [("a_b_name", "x"), ("a_b_name", "y")]
  {
    NameLeafWrites("x");
    NameLeafWrites("y");
    assert MemberWrites(first, "") == [("a_b_name", "x")];
    assert MemberWrites(second, "") == [("a_b_name", "y")] by {
      assert MembersWrites([("b", Obj([("name", Str("y"))]))], "a") == [("a_b_name", "y")];
    }
    assert [first, second][1..] == [second];
    assert MembersWrites([second], "") == [("a_b_name", "y")];
  }

  /** Two writes to one key leave a single entry with the second value. */
  lemma SecondValueWins(k: string, x: string, y: string)
    ensures Update([], [(k, x), (k, y)]) == [(k, y)]
  {
    var w := [(k, x), (k, y)];
    assert w[..1] == [(k, x)];
    assert [(k, x)][..0] == [];
    assert Update([], [(k, x)]) == [(k, x)];
  }

  /** `{"name": t}` under the prefix `a_b` records `a_b_name` (stripping a one-letter word keeps it). */
  lemma NameLeafWrites(t: string)
    requires |t| == 1 && !IsSpace(t[0])
    ensures MembersWrites([("name", Str(t))], "a_b") == [("a_b_name", t)]
    ensures MembersWrites([("name", Str(t))], ChildKey("a", "b")) == [("a_b_name", t)]
  {
    assert TrimStart(t) == t && TrimEnd(t) == t;
    assert "name" in TranslatableNames;
    assert ChildKey("a", "b") == "a_b";
    assert ChildKey("a_b", "name") == "a_b_name";
    assert Strip(t) == t;
    assert Translatable("name", Str(t));
    var ms := [("name", Str(t))];
    assert ms[1..] == [];
    assert MemberWrites(ms[0], "a_b") == [("a_b_name", t)] + Writes(Str(t), "a_b_name");
  }
}
