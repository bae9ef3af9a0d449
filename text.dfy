/**
 * String helpers the request handler relies on. Strings are sequences of
 * Unicode code points, so PHP's `mb_strlen($s, 'UTF-8')` is simply `|s|`.
 */
module Text {

  /** The characters PHP's `trim` removes by default: space, tab, line feed,
      carriage return, NUL and vertical tab. */
  predicate IsTrimSpace(c: char) {
    c == ' ' || c == '\t' || c == '\n' || c == '\r' || c == '\U{0000}' || c == '\U{000B}'
  }

  /** Removes leading trim characters. */
  function TrimLeft(s: string): (r: string)
    ensures |r| <= |s|
  {
    if s != [] && IsTrimSpace(s[0]) then TrimLeft(s[1..]) else s
  }

  /** Removes trailing trim characters. */
  function TrimRight(s: string): (r: string)
    ensures |r| <= |s|
  {
    if s != [] && IsTrimSpace(s[|s| - 1]) then TrimRight(s[..|s| - 1]) else s
  }

  /** `TrimLeft` keeps a suffix, and drops only trim characters to reach
      one that does not start with a trim character. */
  lemma {:induction false} TrimLeftSpec(s: string)
    ensures TrimLeft(s) == s[|s| - |TrimLeft(s)|..]
    ensures forall i :: 0 <= i < |s| - |TrimLeft(s)| ==> IsTrimSpace(s[i])
    ensures TrimLeft(s) != [] ==> !IsTrimSpace(TrimLeft(s)[0])
  {
    if s != [] && IsTrimSpace(s[0]) {
      TrimLeftSpec(s[1..]);
    }
  }

  /** `TrimRight` keeps a prefix, and drops only trim characters to reach
      one that does not end with a trim character. */
  lemma {:induction false} TrimRightSpec(s: string)
    ensures TrimRight(s) == s[..|TrimRight(s)|]
    ensures forall i :: |TrimRight(s)| <= i < |s| ==> IsTrimSpace(s[i])
    ensures TrimRight(s) != [] ==> !IsTrimSpace(TrimRight(s)[|TrimRight(s)| - 1])
  {
    if s != [] && IsTrimSpace(s[|s| - 1]) {
      TrimRightSpec(s[..|s| - 1]);
    }
  }

  /** How many leading trim characters `Trim` removes. */
  function TrimStart(s: string): nat {
    |s| - |TrimLeft(s)|
  }

  /** PHP's `trim($s)`. */
  function Trim(s: string): string {
    TrimRight(TrimLeft(s))
  }

  /** What `Trim` keeps: the infix of `s` left once every leading and every
      trailing trim character is removed; blank strings trim to `""`. */
  lemma TrimSpec(s: string)
    ensures TrimStart(s) + |Trim(s)| <= |s| && Trim(s) == s[TrimStart(s)..TrimStart(s) + |Trim(s)|]
    ensures forall i :: 0 <= i < |s| && !(TrimStart(s) <= i < TrimStart(s) + |Trim(s)|) ==> IsTrimSpace(s[i])
    ensures Trim(s) != [] ==> !IsTrimSpace(Trim(s)[0]) && !IsTrimSpace(Trim(s)[|Trim(s)| - 1])
    ensures Trim(s) == [] <==> forall i :: 0 <= i < |s| ==> IsTrimSpace(s[i])
  {
    var l := TrimLeft(s);
    var r := TrimRight(l);
    var k := TrimStart(s);
    TrimLeftSpec(s);
    TrimRightSpec(l);
    assert r == s[k..k + |r|];
    assert forall i :: k <= i < |s| ==> l[i - k] == s[i];
    assert r != [] ==> r[0] == l[0];
  }

  /** PHP's `strtok($uri, '?')` as the redirect uses it: leading `?`
      characters are skipped, then everything up to the next `?` is kept
      (`""` when nothing is left, where `strtok` gives `false`). */
  function StripQuery(uri: string): (r: string)
    ensures '?' !in r
    ensures uri != [] && uri[0] != '?' ==> r <= uri && (|r| == |uri| || uri[|r|] == '?')
    ensures r == UpToQuery(uri[QueryMarks(uri)..])
  {
    if uri != [] && uri[0] == '?' then
      StripQuery(uri[1..])
    else
      UpToQuery(uri)
  }

  /** The number of `?` characters `uri` starts with. */
  function QueryMarks(uri: string): (k: nat)
    ensures k <= |uri|
    ensures forall i :: 0 <= i < k ==> uri[i] == '?'
    ensures k < |uri| ==> uri[k] != '?'
  {
    if uri != [] && uri[0] == '?' then 1 + QueryMarks(uri[1..]) else 0
  }

  /** The longest prefix of `s` without a `?`. */
  function UpToQuery(s: string): (r: string)
    ensures r <= s && '?' !in r
    ensures |r| == |s| || s[|r|] == '?'
  {
    if s == [] || s[0] == '?' then [] else [s[0]] + UpToQuery(s[1..])
  }
}
