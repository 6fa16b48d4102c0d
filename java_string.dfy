/** The few java.lang.String operations the request-gating code relies on, on `seq<char>`. */
module JavaString {
  import opened Wrappers

  /** `s.startsWith(prefix)`. */
  predicate StartsWith(s: string, prefix: string) {
    prefix <= s
  }

  /** `Character.isWhitespace(c)`: the Unicode space, line and paragraph separators other than
      the non-breaking ones (U+00A0, U+2007, U+202F), and the controls U+0009-U+000D, U+001C-U+001F. */
  predicate IsWhitespace(c: char) {
    || ('\t' <= c <= '\r')
    || ('\U{1C}' <= c <= ' ')
    || c == '\U{1680}'
    || ('\U{2000}' <= c <= '\U{2006}')
    || ('\U{2008}' <= c <= '\U{200A}')
    || c == '\U{2028}' || c == '\U{2029}' || c == '\U{205F}' || c == '\U{3000}'
  }

  /** The "has text" test a JWT string must pass before it is parsed at all:
      at least one character that is not whitespace. */
  predicate HasText(s: string) {
    exists i :: 0 <= i < |s| && !IsWhitespace(s[i])
  }

  /** `s.trim()` drops the leading characters up to U+0020 ... */
  function TrimStart(s: string): (r: string)
    ensures |r| <= |s| && r == s[|s| - |r|..]
    ensures forall k :: 0 <= k < |s| - |r| ==> s[k] <= ' '
    ensures r != [] ==> r[0] > ' '
  {
    if s != [] && s[0] <= ' ' then TrimStart(s[1..]) else s
  }

  /** ... and the trailing ones. */
  function TrimEnd(s: string): (r: string)
    ensures |r| <= |s| && r == s[..|r|]
    ensures forall k :: |r| <= k < |s| ==> s[k] <= ' '
    ensures r != [] ==> r[|r| - 1] > ' '
  {
    if s != [] && s[|s| - 1] <= ' ' then TrimEnd(s[..|s| - 1]) else s
  }

  /** `s.trim()`: the longest slice of `s` neither end of which is a control or space character. */
  function Trim(s: string): (r: string)
    ensures r != [] ==> r[0] > ' ' && r[|r| - 1] > ' '
    ensures |r| <= |s|
  {
    TrimEnd(TrimStart(s))
  }

  /** `trim` returns a slice of its argument, and what it drops at either end are characters
      up to U+0020 only. */
  lemma TrimIsInfix(s: string)
    ensures exists i, j :: 0 <= i <= j <= |s| && Trim(s) == s[i..j]
                           && (forall k :: 0 <= k < i ==> s[k] <= ' ')
                           && (forall k :: j <= k < |s| ==> s[k] <= ' ')
  {
    var t := TrimStart(s);
    var i := |s| - |t|;
    var j := i + |Trim(s)|;
    SliceOfSlice(s, i, t, Trim(s));
    DropsBack(s, i, t, |Trim(s)|);
    assert Trim(s) == s[i..j];
  }

  lemma DropsBack(s: string, i: nat, t: string, n: nat)
    requires i <= |s| && t == s[i..] && n <= |t|
    requires forall k :: n <= k < |t| ==> t[k] <= ' '
    ensures forall k :: i + n <= k < |s| ==> s[k] <= ' '
  {
    forall k | i + n <= k < |s|
      ensures s[k] <= ' '
    {
      assert s[k] == t[k - i];
    }
  }

  lemma SliceOfSlice(s: string, i: nat, t: string, r: string)
    requires i <= |s| && t == s[i..]
    requires |r| <= |t| && r == t[..|r|]
    ensures r == s[i..i + |r|]
  {
  }

  /** The text before the first comma (all of `s` when it has none). */
  function UpToComma(s: string): (r: string)
    ensures r <= s && ',' !in r
    ensures |r| < |s| ==> s[|r|] == ','
  {
    if s == [] || s[0] == ',' then [] else [s[0]] + UpToComma(s[1..])
  }

  predicate OnlyCommas(s: string) {
    forall i :: 0 <= i < |s| ==> s[i] == ','
  }

  /** `s.split(",")[0]`. Java's split drops trailing empty strings, so a non-empty string made
      of commas alone splits into an empty array and indexing it throws: that is `None`. */
  function FirstOfCommaSplit(s: string): (r: Option<string>)
    ensures r.None? <==> s != [] && OnlyCommas(s)
    ensures r.Some? ==> r.value <= s && ',' !in r.value
    ensures r.Some? && |r.value| < |s| ==> s[|r.value|] == ','
  {
    if s != [] && OnlyCommas(s) then None else Some(UpToComma(s))
  }
}
