/**
  The two walks of `recursive_extract_and_replace` (translate.py lines
  36-75). Both visit object members in order, compute the member's path
  key, treat the member when it is translatable, and then always descend
  into its value; array elements are descended into with an index key.
 */
module Traverse {
  import opened JsonDoc
  import opened Dicts
  import opened PathKey
  import opened Wrappers

  /**
    Extract mode: the writes `translation_map[key] = text` the walk
    performs, in the order it performs them (lines 58-61, 68, 72-75).
   */
  function Writes(j: Json, path: string): Dict<string>
    decreases j
  {
    match j
    case Obj(ms) => MembersWrites(ms, path)
    case Arr(xs) => ItemsWrites(xs, path, 0)
    case _ => []
  }

  function MembersWrites(ms: seq<(string, Json)>, path: string): Dict<string>
    decreases ms
  {
    if ms == [] then [] else MemberWrites(ms[0], path) + MembersWrites(ms[1..], path)
  }

  function MemberWrites(m: (string, Json), path: string): Dict<string>
    decreases m
  {
    var q := ChildKey(path, m.0);
    (if Translatable(m.0, m.1) then [(q, Strip(m.1.text))] else []) + Writes(m.1, q)
  }

  function ItemsWrites(xs: seq<Json>, path: string, from: nat): Dict<string>
    decreases xs
  {
    if xs == [] then [] else Writes(xs[0], IndexKey(path, from)) + ItemsWrites(xs[1..], path, from + 1)
  }

  /** `extract_translation_data` (lines 77-82): the walk's writes applied to an empty dict. */
  function Extract(doc: Json): Dict<string>
  {
    Update([], Writes(doc, ""))
  }

  /**
    Replace mode (lines 62-65, 68), returning the new value instead of
    assigning in place. A translatable member whose key hits the map takes
    the translation; every other member keeps its key and has its value
    walked (walking a string changes nothing).
   */
  function Replace(j: Json, tm: Dict<string>, path: string): Json
    decreases j
  {
    match j
    case Obj(ms) => Obj(ReplaceMembers(ms, tm, path))
    case Arr(xs) => Arr(ReplaceItems(xs, tm, path, 0))
    case _ => j
  }

  function ReplaceMembers(ms: seq<(string, Json)>, tm: Dict<string>, path: string): seq<(string, Json)>
    decreases ms
  {
    if ms == [] then [] else [ReplaceMember(ms[0], tm, path)] + ReplaceMembers(ms[1..], tm, path)
  }

  function ReplaceMember(m: (string, Json), tm: Dict<string>, path: string): (string, Json)
    decreases m
  {
    var q := ChildKey(path, m.0);
    if Translatable(m.0, m.1) && Hit(tm, q) then (m.0, Str(Get(tm, q).value))
    else (m.0, Replace(m.1, tm, q))
  }

  function ReplaceItems(xs: seq<Json>, tm: Dict<string>, path: string, from: nat): seq<Json>
    decreases xs
  {
    if xs == [] then [] else [Replace(xs[0], tm, IndexKey(path, from))] + ReplaceItems(xs[1..], tm, path, from + 1)
  }

  /** `replace_translated_data` (lines 84-87). */
  function ReplaceTranslated(doc: Json, tm: Dict<string>): Json
  {
    Replace(doc, tm, "")
  }
}
