/**
  What replacement does, stated against the slot view: the skeleton (keys,
  their order, array lengths, every value outside a slot) is untouched, and
  each slot's text becomes the translation under its key when there is a
  non-empty one and the slot was live. Since skeleton and slots together
  determine a document, nothing else can change.
 */
module ReplaceFacts {
  import opened JsonDoc
  import opened Dicts
  import opened PathKey
  import opened Wrappers
  import opened Traverse
  import opened Locations
  import opened ExtractFacts

  lemma RetextConcat(p: string, a: seq<Slot>, b: seq<Slot>, tm: Dict<string>)
    ensures Retext(p, a + b, tm) == Retext(p, a, tm) + Retext(p, b, tm)
  {
  }

  lemma RetextUnder(p: string, s: Step, slots: seq<Slot>, tm: Dict<string>)
    ensures Retext(p, Under(s, slots), tm) == Under(s, Retext(Extend(p, s), slots, tm))
  {
    forall i | 0 <= i < |slots|
      ensures EncodeFrom(p, [s] + slots[i].route) == EncodeFrom(Extend(p, s), slots[i].route)
    {
      EncodeFromCons(p, s, slots[i].route);
    }
  }

  lemma SkeletonKind(j: Json)
    ensures Skeleton(j).Obj? == j.Obj? && Skeleton(j).Arr? == j.Arr? && Skeleton(j).Str? == j.Str?
    ensures !j.Obj? && !j.Arr? ==> Skeleton(j) == j
  {
  }

  /** Replacement rewrites exactly the live slots whose key has a non-empty translation. */
  lemma {:induction false} ReplaceSlots(j: Json, tm: Dict<string>, p: string)
    ensures Slots(Replace(j, tm, p)) == Retext(p, Slots(j), tm)
    decreases j
  {
    match j
    case Obj(ms) => ReplaceMembersSlots(ms, tm, p);
    case Arr(xs) => ReplaceItemsSlots(xs, tm, p, 0);
    case _ =>
  }

  lemma {:induction false} ReplaceMembersSlots(ms: seq<(string, Json)>, tm: Dict<string>, p: string)
    ensures MembersSlots(ReplaceMembers(ms, tm, p)) == Retext(p, MembersSlots(ms), tm)
    decreases ms
  {
    if ms != [] {
      var rs := ReplaceMembers(ms, tm, p);
      assert rs[0] == ReplaceMember(ms[0], tm, p) && rs[1..] == ReplaceMembers(ms[1..], tm, p);
      ReplaceMemberSlots(ms[0], tm, p);
      ReplaceMembersSlots(ms[1..], tm, p);
      RetextConcat(p, MemberSlots(ms[0]), MembersSlots(ms[1..]), tm);
    }
  }

  lemma {:induction false} ReplaceMemberSlots(m: (string, Json), tm: Dict<string>, p: string)
    ensures MemberSlots(ReplaceMember(m, tm, p)) == Retext(p, MemberSlots(m), tm)
    decreases m
  {
    var (k, v) := m;
    var q := ChildKey(p, k);
    assert EncodeFrom(p, [Key(k)]) == q;
    var head: seq<Slot> := if k in TranslatableNames && v.Str? then [Slot([Key(k)], v.text)] else [];
    RetextConcat(p, head, Under(Key(k), Slots(v)), tm);
    if Translatable(k, v) && Hit(tm, q) {
      assert Slots(v) == [];
    } else {
      ReplaceSlots(v, tm, q);
      RetextUnder(p, Key(k), Slots(v), tm);
      SkeletonKind(v);
    }
  }

  lemma {:induction false} ReplaceItemsSlots(xs: seq<Json>, tm: Dict<string>, p: string, from: nat)
    ensures ItemsSlots(ReplaceItems(xs, tm, p, from), from) == Retext(p, ItemsSlots(xs, from), tm)
    decreases xs
  {
    if xs != [] {
      var rs := ReplaceItems(xs, tm, p, from);
      assert rs[0] == Replace(xs[0], tm, IndexKey(p, from));
      assert rs[1..] == ReplaceItems(xs[1..], tm, p, from + 1);
      ReplaceSlots(xs[0], tm, IndexKey(p, from));
      RetextUnder(p, Index(from), Slots(xs[0]), tm);
      ReplaceItemsSlots(xs[1..], tm, p, from + 1);
      RetextConcat(p, Under(Index(from), Slots(xs[0])), ItemsSlots(xs[1..], from + 1), tm);
    }
  }

  /** Replacement keeps the skeleton: same keys in the same order, same lengths, same values outside slots. */
  lemma {:induction false} ReplaceSkeleton(j: Json, tm: Dict<string>, p: string)
    ensures Skeleton(Replace(j, tm, p)) == Skeleton(j)
    decreases j
  {
    match j
    case Obj(ms) => ReplaceMembersSkeleton(ms, tm, p);
    case Arr(xs) => ReplaceItemsSkeleton(xs, tm, p, 0);
    case _ =>
  }

  lemma {:induction false} ReplaceMembersSkeleton(ms: seq<(string, Json)>, tm: Dict<string>, p: string)
    ensures SkeletonMembers(ReplaceMembers(ms, tm, p)) == SkeletonMembers(ms)
    decreases ms
  {
    if ms != [] {
      var rs := ReplaceMembers(ms, tm, p);
      assert rs[0] == ReplaceMember(ms[0], tm, p) && rs[1..] == ReplaceMembers(ms[1..], tm, p);
      ReplaceMemberSkeleton(ms[0], tm, p);
      ReplaceMembersSkeleton(ms[1..], tm, p);
    }
  }

  lemma {:induction false} ReplaceMemberSkeleton(m: (string, Json), tm: Dict<string>, p: string)
    ensures SkeletonMember(ReplaceMember(m, tm, p)) == SkeletonMember(m)
    decreases m
  {
    var (k, v) := m;
    var q := ChildKey(p, k);
    if !(Translatable(k, v) && Hit(tm, q)) {
      ReplaceSkeleton(v, tm, q);
      SkeletonKind(v);
    }
  }

  lemma {:induction false} ReplaceItemsSkeleton(xs: seq<Json>, tm: Dict<string>, p: string, from: nat)
    ensures SkeletonItems(ReplaceItems(xs, tm, p, from)) == SkeletonItems(xs)
    decreases xs
  {
    if xs != [] {
      var rs := ReplaceItems(xs, tm, p, from);
      assert rs[0] == Replace(xs[0], tm, IndexKey(p, from));
      assert rs[1..] == ReplaceItems(xs[1..], tm, p, from + 1);
      ReplaceSkeleton(xs[0], tm, IndexKey(p, from));
      ReplaceItemsSkeleton(xs[1..], tm, p, from + 1);
    }
  }

  /** Documents with the same skeleton have the same number of slots. */
  lemma {:induction false} SlotCount(a: Json, b: Json)
    requires Skeleton(a) == Skeleton(b)
    ensures |Slots(a)| == |Slots(b)|
    decreases a
  {
    SkeletonKind(a);
    SkeletonKind(b);
    match a
    case Obj(ms) => MembersSlotCount(ms, b.members);
    case Arr(xs) => ItemsSlotCount(xs, b.items, 0);
    case _ =>
  }

  lemma {:induction false} MembersSlotCount(ms: seq<(string, Json)>, ns: seq<(string, Json)>)
    requires SkeletonMembers(ms) == SkeletonMembers(ns)
    ensures |MembersSlots(ms)| == |MembersSlots(ns)|
    decreases ms
  {
    if ms != [] {
      assert ns != [];
      assert SkeletonMembers(ms)[0] == SkeletonMember(ms[0]) && SkeletonMembers(ms)[1..] == SkeletonMembers(ms[1..]);
      assert SkeletonMembers(ns)[0] == SkeletonMember(ns[0]) && SkeletonMembers(ns)[1..] == SkeletonMembers(ns[1..]);
      MemberSlotCount(ms[0], ns[0]);
      MembersSlotCount(ms[1..], ns[1..]);
    }
  }

  lemma {:induction false} MemberSlotCount(m: (string, Json), n: (string, Json))
    requires SkeletonMember(m) == SkeletonMember(n)
    ensures |MemberSlots(m)| == |MemberSlots(n)|
    decreases m
  {
    SkeletonKind(m.1);
    SkeletonKind(n.1);
    if !(m.0 in TranslatableNames && m.1.Str?) {
      assert !(n.0 in TranslatableNames && n.1.Str?);
      SlotCount(m.1, n.1);
    }
  }

  lemma {:induction false} ItemsSlotCount(xs: seq<Json>, ys: seq<Json>, from: nat)
    requires SkeletonItems(xs) == SkeletonItems(ys)
    ensures |ItemsSlots(xs, from)| == |ItemsSlots(ys, from)|
    decreases xs
  {
    if xs != [] {
      assert ys != [];
      assert SkeletonItems(xs)[0] == Skeleton(xs[0]) && SkeletonItems(xs)[1..] == SkeletonItems(xs[1..]);
      assert SkeletonItems(ys)[0] == Skeleton(ys[0]) && SkeletonItems(ys)[1..] == SkeletonItems(ys[1..]);
      SlotCount(xs[0], ys[0]);
      ItemsSlotCount(xs[1..], ys[1..], from + 1);
    }
  }

  lemma UnderInjective(s: Step, x: seq<Slot>, y: seq<Slot>)
    requires Under(s, x) == Under(s, y)
    ensures x == y
  {
    assert |x| == |y|;
    forall i | 0 <= i < |x|
      ensures x[i] == y[i]
    {
      assert Under(s, x)[i].route[1..] == x[i].route;
      assert Under(s, y)[i].route[1..] == y[i].route;
    }
  }

  lemma SplitEqual<T>(a: seq<T>, b: seq<T>, c: seq<T>, d: seq<T>)
    requires a + b == c + d && |a| == |c|
    ensures a == c && b == d
  {
    assert a == (a + b)[..|a|] && c == (c + d)[..|c|];
    assert b == (a + b)[|a|..] && d == (c + d)[|c|..];
  }

  /** A document is determined by its skeleton and its slots. */
  lemma {:induction false} Determined(a: Json, b: Json)
    requires Skeleton(a) == Skeleton(b) && Slots(a) == Slots(b)
    ensures a == b
    decreases a
  {
    SkeletonKind(a);
    SkeletonKind(b);
    match a
    case Obj(ms) => MembersDetermined(ms, b.members);
    case Arr(xs) => ItemsDetermined(xs, b.items, 0);
    case _ =>
  }

  lemma {:induction false} MembersDetermined(ms: seq<(string, Json)>, ns: seq<(string, Json)>)
    requires SkeletonMembers(ms) == SkeletonMembers(ns) && MembersSlots(ms) == MembersSlots(ns)
    ensures ms == ns
    decreases ms
  {
    if ms != [] {
      assert ns != [];
      assert SkeletonMembers(ms)[0] == SkeletonMember(ms[0]) && SkeletonMembers(ms)[1..] == SkeletonMembers(ms[1..]);
      assert SkeletonMembers(ns)[0] == SkeletonMember(ns[0]) && SkeletonMembers(ns)[1..] == SkeletonMembers(ns[1..]);
      MemberSlotCount(ms[0], ns[0]);
      SplitEqual(MemberSlots(ms[0]), MembersSlots(ms[1..]), MemberSlots(ns[0]), MembersSlots(ns[1..]));
      MemberDetermined(ms[0], ns[0]);
      MembersDetermined(ms[1..], ns[1..]);
      assert ms == [ms[0]] + ms[1..] && ns == [ns[0]] + ns[1..];
    }
  }

  lemma {:induction false} MemberDetermined(m: (string, Json), n: (string, Json))
    requires SkeletonMember(m) == SkeletonMember(n) && MemberSlots(m) == MemberSlots(n)
    ensures m == n
    decreases m
  {
    var (k, v) := m;
    SkeletonKind(v);
    SkeletonKind(n.1);
    assert n.0 == k;
    if k in TranslatableNames && v.Str? {
      assert n.1.Str?;
      assert MemberSlots(m)[0] == Slot([Key(k)], v.text);
      assert MemberSlots(n)[0] == Slot([Key(k)], n.1.text);
    } else {
      assert !n.1.Str? || k !in TranslatableNames;
      var e: seq<Slot> := [];
      assert MemberSlots(m) == e + Under(Key(k), Slots(v));
      assert MemberSlots(n) == e + Under(Key(k), Slots(n.1));
      assert e + Under(Key(k), Slots(v)) == Under(Key(k), Slots(v));
      assert e + Under(Key(k), Slots(n.1)) == Under(Key(k), Slots(n.1));
      UnderInjective(Key(k), Slots(v), Slots(n.1));
      Determined(v, n.1);
    }
  }

  lemma {:induction false} ItemsDetermined(xs: seq<Json>, ys: seq<Json>, from: nat)
    requires SkeletonItems(xs) == SkeletonItems(ys) && ItemsSlots(xs, from) == ItemsSlots(ys, from)
    ensures xs == ys
    decreases xs
  {
    if xs != [] {
      assert ys != [];
      assert SkeletonItems(xs)[0] == Skeleton(xs[0]) && SkeletonItems(xs)[1..] == SkeletonItems(xs[1..]);
      assert SkeletonItems(ys)[0] == Skeleton(ys[0]) && SkeletonItems(ys)[1..] == SkeletonItems(ys[1..]);
      SlotCount(xs[0], ys[0]);
      SplitEqual(Under(Index(from), Slots(xs[0])), ItemsSlots(xs[1..], from + 1),
                 Under(Index(from), Slots(ys[0])), ItemsSlots(ys[1..], from + 1));
      UnderInjective(Index(from), Slots(xs[0]), Slots(ys[0]));
      Determined(xs[0], ys[0]);
      ItemsDetermined(xs[1..], ys[1..], from + 1);
      assert xs == [xs[0]] + xs[1..] && ys == [ys[0]] + ys[1..];
    }
  }

  /**
    Replacement is characterised without reference to the walk: its result
    is the one document that has the original's skeleton and the original's
    slots with their texts replaced as `NewText` says.
   */
  lemma ReplaceCharacterised(j: Json, tm: Dict<string>, p: string)
    ensures forall d :: d == Replace(j, tm, p) <==>
              Skeleton(d) == Skeleton(j) && Slots(d) == Retext(p, Slots(j), tm)
  {
    ReplaceSkeleton(j, tm, p);
    ReplaceSlots(j, tm, p);
    forall d | Skeleton(d) == Skeleton(j) && Slots(d) == Retext(p, Slots(j), tm)
      ensures d == Replace(j, tm, p)
    {
      Determined(d, Replace(j, tm, p));
    }
  }

  /** A map that translates no live slot of the document leaves it exactly as it was. */
  lemma ReplaceWithoutHits(j: Json, tm: Dict<string>, p: string)
    requires forall i | 0 <= i < |Slots(j)| && Live(Slots(j)[i]) :: !Hit(tm, EncodeFrom(p, Slots(j)[i].route))
    ensures Replace(j, tm, p) == j
  {
    ReplaceSkeleton(j, tm, p);
    ReplaceSlots(j, tm, p);
    assert Retext(p, Slots(j), tm) == Slots(j);
    Determined(Replace(j, tm, p), j);
  }

  /** Replacing with an empty translation map changes nothing. */
  lemma ReplaceEmptyMap(j: Json)
    ensures ReplaceTranslated(j, []) == j
  {
    ReplaceWithoutHits(j, [], "");
  }

  /** A document from which nothing is extracted comes out of replacement unchanged, whatever the map. */
  lemma ReplaceNothingExtracted(doc: Json, tm: Dict<string>)
    requires Extract(doc) == []
    ensures ReplaceTranslated(doc, tm) == doc
  {
    WritesAreExpected(doc, "");
    UpdateNonEmpty([], Writes(doc, ""));
    NothingExpected("", Slots(doc));
    ReplaceWithoutHits(doc, tm, "");
  }

  /**
    Round trip: in a well-keyed document, extracting, translating every
    extracted value with `f`, and replacing puts each translation back into
    the slot it was extracted from; slots that were blank, or whose
    translation is empty, keep their text.
   */
  lemma ExtractTranslateReplace(doc: Json, f: string -> string)
    requires WellKeyed(doc)
    ensures Skeleton(ReplaceTranslated(doc, MapValues(Extract(doc), f))) == Skeleton(doc)
    ensures var before, after := Slots(doc), Slots(ReplaceTranslated(doc, MapValues(Extract(doc), f)));
      |after| == |before| &&
      forall i | 0 <= i < |before| ::
        after[i].route == before[i].route &&
        after[i].text == if Live(before[i]) && f(Strip(before[i].text)) != "" then f(Strip(before[i].text)) else before[i].text
  {
    var tm := MapValues(Extract(doc), f);
    ExtractExact(doc);
    ReplaceSlots(doc, tm, "");
    ReplaceSkeleton(doc, tm, "");
  }
}
