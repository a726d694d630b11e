/**
  JSON values as the loader hands them over, the names of the fields that
  carry translatable text, and the whitespace trimming the walk applies to
  their values.
 */
module JsonDoc {

  /** Objects keep their members in document order. */
  datatype Json =
    | Obj(members: seq<(string, Json)>)
    | Arr(items: seq<Json>)
    | Str(text: string)
    | Num(value: real)
    | Bool(flag: bool)
    | Null

  /** Object keys whose string values are sent for translation (translate.py line 14). */
  const TranslatableNames: seq<string> :=
    ["name", "desc", "extdesc", "flavor", "title", "actname", "actdesc", "verb"]

  /** Python's `str.isspace`: the characters `str.strip()` removes from both ends. */
  predicate IsSpace(c: char)
  {
    var n := c as int;
    || 0x09 <= n <= 0x0D
    || 0x1C <= n <= 0x20
    || n == 0x85 || n == 0xA0 || n == 0x1680
    || 0x2000 <= n <= 0x200A
    || n == 0x2028 || n == 0x2029 || n == 0x202F || n == 0x205F || n == 0x3000
  }

  predicate Blank(s: string)
  {
    forall i | 0 <= i < |s| :: IsSpace(s[i])
  }

  function TrimStart(s: string): string
  {
    if s != [] && IsSpace(s[0]) then TrimStart(s[1..]) else s
  }

  function TrimEnd(s: string): string
  {
    if s != [] && IsSpace(s[|s| - 1]) then TrimEnd(s[..|s| - 1]) else s
  }

  /** `TrimStart` drops a whitespace prefix and stops at the first other character. */
  lemma {:induction false} TrimStartFacts(s: string)
    ensures var r := TrimStart(s);
      |r| <= |s| && r == s[|s| - |r|..] && Blank(s[..|s| - |r|]) && (r != [] ==> !IsSpace(r[0]))
    decreases |s|
  {
    if s != [] && IsSpace(s[0]) {
      TrimStartFacts(s[1..]);
      var r := TrimStart(s[1..]);
      assert s[..|s| - |r|] == [s[0]] + s[1..][..|s[1..]| - |r|];
    }
  }

  /** `TrimEnd` drops a whitespace suffix and stops at the last other character. */
  lemma {:induction false} TrimEndFacts(s: string)
    ensures var r := TrimEnd(s);
      |r| <= |s| && r == s[..|r|] && Blank(s[|r|..]) && (r != [] ==> !IsSpace(r[|r| - 1]))
    decreases |s|
  {
    if s != [] && IsSpace(s[|s| - 1]) {
      var n := |s| - 1;
      TrimEndFacts(s[..n]);
      var r := TrimEnd(s[..n]);
      assert s[|r|..] == s[..n][|r|..] + [s[n]];
    }
  }

  /**
    Python's `s.strip()`: whitespace dropped at both ends. It is empty
    exactly when `s` is all whitespace.
   */
  function Strip(s: string): (r: string)
    ensures r == "" <==> Blank(s)
    ensures r != "" ==> !IsSpace(r[0]) && !IsSpace(r[|r| - 1])
  {
    TrimStartFacts(s);
    TrimEndFacts(TrimStart(s));
    TrimEnd(TrimStart(s))
  }

  /** What `Strip` keeps is a slice of its argument with only whitespace around it. */
  lemma StripIsSlice(s: string)
    ensures var r := Strip(s);
      exists a | 0 <= a <= |s| - |r| :: r == s[a..a + |r|] && Blank(s[..a]) && Blank(s[a + |r|..])
  {
    TrimStartFacts(s);
    var front := TrimStart(s);
    TrimEndFacts(front);
    var r := TrimEnd(front);
    var a := |s| - |front|;
    assert r == s[a..a + |r|];
    assert s[a + |r|..] == front[|r|..];
  }

  /** The entry `k: v` is extracted: a listed name holding text that is not all whitespace (line 58). */
  predicate Translatable(k: string, v: Json)
  {
    k in TranslatableNames && v.Str? && Strip(v.text) != ""
  }
}
