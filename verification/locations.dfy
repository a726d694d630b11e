/**
  A description of a document by its text slots, independent of the walks:
  every string held under a translatable name, with the route of object
  keys and array indices that leads to it from the root, in document
  order. The skeleton is the document with those strings blanked. The
  lemmas about extraction and replacement are stated against these.
 */
module Locations {
  import opened JsonDoc
  import opened Dicts
  import opened PathKey
  import opened Wrappers

  datatype Slot = Slot(route: seq<Step>, text: string)

  function Slots(j: Json): seq<Slot>
    decreases j
  {
    match j
    case Obj(ms) => MembersSlots(ms)
    case Arr(xs) => ItemsSlots(xs, 0)
    case _ => []
  }

  function MembersSlots(ms: seq<(string, Json)>): seq<Slot>
    decreases ms
  {
    if ms == [] then [] else MemberSlots(ms[0]) + MembersSlots(ms[1..])
  }

  function MemberSlots(m: (string, Json)): seq<Slot>
    decreases m
  {
    (if m.0 in TranslatableNames && m.1.Str? then [Slot([Key(m.0)], m.1.text)] else [])
      + Under(Key(m.0), Slots(m.1))
  }

  function ItemsSlots(xs: seq<Json>, from: nat): seq<Slot>
    decreases xs
  {
    if xs == [] then [] else Under(Index(from), Slots(xs[0])) + ItemsSlots(xs[1..], from + 1)
  }

  /** The slots of a child, seen from its parent. */
  function Under(s: Step, slots: seq<Slot>): (r: seq<Slot>)
    ensures |r| == |slots|
    ensures forall i | 0 <= i < |r| :: r[i] == Slot([s] + slots[i].route, slots[i].text)
  {
    seq(|slots|, i requires 0 <= i < |slots| => Slot([s] + slots[i].route, slots[i].text))
  }

  /** A slot whose text is not all whitespace: the ones extraction records. */
  predicate Live(s: Slot)
  {
    Strip(s.text) != ""
  }

  /** The entries extraction should record for `slots`, keyed from the prefix `p`. */
  function Expected(p: string, slots: seq<Slot>): Dict<string>
  {
    if slots == [] then [] else Entry(p, slots[0]) + Expected(p, slots[1..])
  }

  /** The entry a single slot contributes: its key and stripped text, when it is live. */
  function Entry(p: string, s: Slot): Dict<string>
  {
    if Live(s) then [(EncodeFrom(p, s.route), Strip(s.text))] else []
  }

  /** The text a slot holds after replacement with the map `tm`, its key being `key`. */
  function NewText(key: string, text: string, tm: Dict<string>): string
  {
    if Strip(text) != "" && Hit(tm, key) then Get(tm, key).value
    else text
  }

  function Retext(p: string, slots: seq<Slot>, tm: Dict<string>): (r: seq<Slot>)
    ensures |r| == |slots|
    ensures forall i | 0 <= i < |r| ::
              r[i] == Slot(slots[i].route, NewText(EncodeFrom(p, slots[i].route), slots[i].text, tm))
  {
    seq(|slots|, i requires 0 <= i < |slots| =>
      Slot(slots[i].route, NewText(EncodeFrom(p, slots[i].route), slots[i].text, tm)))
  }

  /** The document with the text of every slot blanked. */
  function Skeleton(j: Json): Json
    decreases j
  {
    match j
    case Obj(ms) => Obj(SkeletonMembers(ms))
    case Arr(xs) => Arr(SkeletonItems(xs))
    case _ => j
  }

  function SkeletonMembers(ms: seq<(string, Json)>): (r: seq<(string, Json)>)
    ensures |r| == |ms|
    decreases ms
  {
    if ms == [] then [] else [SkeletonMember(ms[0])] + SkeletonMembers(ms[1..])
  }

  function SkeletonMember(m: (string, Json)): (string, Json)
    decreases m
  {
    if m.0 in TranslatableNames && m.1.Str? then (m.0, Str("")) else (m.0, Skeleton(m.1))
  }

  function SkeletonItems(xs: seq<Json>): (r: seq<Json>)
    ensures |r| == |xs|
    decreases xs
  {
    if xs == [] then [] else [Skeleton(xs[0])] + SkeletonItems(xs[1..])
  }

  /**
    Every object's keys are distinct (as in any Python dict), non-empty,
    and free of `_` and `[`: the hypothesis under which path keys are
    unambiguous.
   */
  predicate WellKeyed(j: Json)
    decreases j
  {
    match j
    case Obj(ms) => Wf(ms) && MembersWellKeyed(ms)
    case Arr(xs) => ItemsWellKeyed(xs)
    case _ => true
  }

  predicate MembersWellKeyed(ms: seq<(string, Json)>)
    decreases ms
  {
    ms == [] || (MemberWellKeyed(ms[0]) && MembersWellKeyed(ms[1..]))
  }

  predicate MemberWellKeyed(m: (string, Json))
    decreases m
  {
    SafeKey(m.0) && WellKeyed(m.1)
  }

  predicate ItemsWellKeyed(xs: seq<Json>)
    decreases xs
  {
    xs == [] || (WellKeyed(xs[0]) && ItemsWellKeyed(xs[1..]))
  }
}
