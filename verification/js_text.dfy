/** The few ECMAScript string operations the services and validators rely on. */
module JsText {
  import opened Wrappers

  /** ECMAScript WhiteSpace and LineTerminator code points. `String.prototype.trim`
      strips exactly these, and the regular-expression class `\s` matches exactly these. */
  predicate IsWhitespace(c: char) {
    || c == '\t' || c == '\n' || c == '\U{000B}' || c == '\U{000C}' || c == '\r' || c == ' '
    || c == '\U{00A0}' || c == '\U{1680}' || ('\U{2000}' <= c <= '\U{200A}')
    || c == '\U{2028}' || c == '\U{2029}' || c == '\U{202F}' || c == '\U{205F}'
    || c == '\U{3000}' || c == '\U{FEFF}'
  }

  /** Every character is whitespace (the empty string included). */
  predicate Blank(s: string) {
    forall i | 0 <= i < |s| :: IsWhitespace(s[i])
  }

  /** Neither end of the string is whitespace. */
  predicate Trimmed(s: string) {
    s == [] || (!IsWhitespace(s[0]) && !IsWhitespace(s[|s| - 1]))
  }

  function TrimStart(s: string): (r: string)
    ensures |r| <= |s| && r == s[|s| - |r|..]
    ensures Blank(s[..|s| - |r|])
    ensures r != [] ==> !IsWhitespace(r[0])
  {
    if s != [] && IsWhitespace(s[0]) then TrimStart(s[1..]) else s
  }

  function TrimEnd(s: string): (r: string)
    ensures |r| <= |s| && r == s[..|r|]
    ensures Blank(s[|r|..])
    ensures r != [] ==> !IsWhitespace(r[|r| - 1])
  {
    if s != [] && IsWhitespace(s[|s| - 1]) then
      var init := s[..|s| - 1];
      var r := TrimEnd(init);
      assert init[..|r|] == s[..|r|];
      assert s[|r|..] == init[|r|..] + [s[|s| - 1]];
      r
    else s
  }

  /** `String.prototype.trim`: the longest infix with no whitespace at either end;
      it is empty exactly when the whole string is whitespace. */
  function Trim(s: string): (r: string)
    ensures |r| <= |s|
    ensures Trimmed(r)
    ensures r == [] <==> Blank(s)
    ensures exists a, b | 0 <= a <= b <= |s| :: r == s[a..b] && Blank(s[..a]) && Blank(s[b..])
  {
    var t := TrimStart(s);
    assert t == [] ==> s[..|s| - |t|] == s;
    StripsBlankEnds(s);
    TrimEnd(t)
  }

  /** Trimming both ends removes a whitespace prefix and a whitespace suffix. */
  lemma {:induction false} StripsBlankEnds(s: string)
    ensures var r := TrimEnd(TrimStart(s));
      exists a, b | 0 <= a <= b <= |s| :: r == s[a..b] && Blank(s[..a]) && Blank(s[b..])
  {
    var t := TrimStart(s);
    var r := TrimEnd(t);
    var a := |s| - |t|;
    var b := a + |r|;
    assert t == s[a..] && Blank(s[..a]);
    assert r == t[..|r|] && Blank(t[|r|..]);
    assert r == s[a..b];
    assert s[b..] == t[|r|..];
    assert r == s[a..b] && Blank(s[..a]) && Blank(s[b..]);
  }

  /** Trimming a trimmed string changes nothing, so `trim` is idempotent. */
  lemma {:induction false} TrimOfTrimmed(s: string)
    requires Trimmed(s)
    ensures Trim(s) == s
  {
    assert TrimStart(s) == s;
    assert TrimEnd(s) == s;
  }

  /** The first index of `c` in `s`, if any. */
  function IndexOf(s: string, c: char): (r: Option<nat>)
    ensures r.None? <==> c !in s
    ensures r.Some? ==> r.value < |s| && s[r.value] == c && c !in s[..r.value]
  {
    if s == [] then None
    else if s[0] == c then Some(0)
    else match IndexOf(s[1..], c)
      case None => None
      case Some(k) =>
        assert s[..k + 1] == [s[0]] + s[1..][..k];
        Some(k + 1)
  }

  /** The character of one decimal digit. */
  function DigitChar(d: nat): (r: char)
    requires d < 10
    ensures '0' <= r <= '9' && r as int - '0' as int == d
  {
    ('0' as int + d) as char
  }

  /** The decimal rendering of a natural number, as template literals print it. */
  function NatToString(n: nat): (r: string)
    ensures |r| >= 1
    ensures forall i | 0 <= i < |r| :: '0' <= r[i] <= '9'
    ensures (n > 0 || |r| > 1) ==> r[0] != '0'
  {
    if n < 10 then [DigitChar(n)] else NatToString(n / 10) + [DigitChar(n % 10)]
  }

  /** `Array.prototype.join(sep)`. */
  function Join(parts: seq<string>, sep: string): string {
    if parts == [] then ""
    else if |parts| == 1 then parts[0]
    else parts[0] + sep + Join(parts[1..], sep)
  }
}
