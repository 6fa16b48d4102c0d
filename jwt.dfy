/** What the JWT library contributes to token handling: the claims set of a token (RFC 7519),
    its compact serialisation, and the parser that checks the signature and then the
    expiration. An HS256 signature (RFC 7518 section 3.2) is modelled by the secret it was
    made with: it verifies against a key exactly when that key is the secret. */
module Jwt {
  import opened Wrappers
  import JavaString

  /** A signed token. `iat` and `exp` are NumericDates (section 2 of RFC 7519): whole seconds
      since the epoch. `typeClaim` is the private claim "type"; `signedWith` stands for the
      signature. */
  datatype Token = Token(subject: string, typeClaim: Option<string>, iat: nat, exp: nat, signedWith: string)

  /** The library stores a date given in milliseconds as whole seconds, dropping the rest. */
  function NumericDate(millis: nat): nat {
    millis / 1000
  }

  /** The expiration as the library hands it back: seconds times 1000. */
  function ExpiresAtMillis(t: Token): nat {
    t.exp * 1000
  }

  /** The parser treats a token as expired once the clock is strictly after its expiration. */
  predicate LiveAt(t: Token, now: nat) {
    now <= ExpiresAtMillis(t)
  }

  // ---- compact serialisation ---------------------------------------------------------------

  /** A text field: every character preceded by '1', the field closed by '0'. */
  function Field(s: string): (r: string)
    ensures |r| == 2 * |s| + 1 && r[|r| - 1] == '0'
  {
    if s == [] then "0" else ['1', s[0]] + Field(s[1..])
  }

  datatype Split<T> = Split(field: T, rest: string)

  function ReadField(s: string): (r: Option<Split<string>>)
    ensures r.Some? ==> |r.value.rest| < |s|
  {
    if s == [] then None
    else if s[0] == '0' then Some(Split([], s[1..]))
    else if s[0] == '1' && |s| >= 2 then
      match ReadField(s[2..])
      case None => None
      case Some(p) => Some(Split([s[1]] + p.field, p.rest))
    else None
  }

  lemma {:induction false} ReadFieldOfField(f: string, rest: string)
    ensures ReadField(Field(f) + rest) == Some(Split(f, rest))
  {
    if f != [] {
      var s := Field(f) + rest;
      assert s == ['1', f[0]] + (Field(f[1..]) + rest);
      assert s[2..] == Field(f[1..]) + rest;
      ReadFieldOfField(f[1..], rest);
      assert [f[0]] + f[1..] == f;
    }
  }

  /** An optional text field: '0' when absent, '1' and the field when present. */
  function OptionalField(o: Option<string>): string {
    match o
    case None => "0"
    case Some(v) => "1" + Field(v)
  }

  function ReadOptionalField(s: string): Option<Split<Option<string>>> {
    if s == [] then None
    else if s[0] == '0' then Some(Split(None, s[1..]))
    else if s[0] == '1' then
      match ReadField(s[1..])
      case None => None
      case Some(p) => Some(Split(Some(p.field), p.rest))
    else None
  }

  lemma ReadOptionalFieldOfOptionalField(o: Option<string>, rest: string)
    ensures ReadOptionalField(OptionalField(o) + rest) == Some(Split(o, rest))
  {
    var s := OptionalField(o) + rest;
    match o
    case None =>
      assert s[0] == '0' && s[1..] == rest;
    case Some(v) =>
      assert s == ['1'] + (Field(v) + rest);
      assert s[0] == '1' && s[1..] == Field(v) + rest;
      ReadFieldOfField(v, rest);
  }

  function DigitChar(d: nat): char
    requires d < 10
  {
    ('0' as int + d) as char
  }

  /** The decimal digits of a number, most significant first. */
  function Decimal(n: nat): (r: string)
    ensures |r| > 0
  {
    if n < 10 then [DigitChar(n)] else Decimal(n / 10) + [DigitChar(n % 10)]
  }

  /** The number a non-empty string of decimal digits denotes; `None` for anything else. */
  function DecimalValue(s: string): Option<nat> {
    if s == [] then None
    else
      var last := s[|s| - 1];
      if !('0' <= last <= '9') then None
      else if |s| == 1 then Some(last as int - '0' as int)
      else
        match DecimalValue(s[..|s| - 1])
        case None => None
        case Some(v) => Some(10 * v + (last as int - '0' as int))
  }

  lemma {:induction false} DecimalValueOfDecimal(n: nat)
    ensures DecimalValue(Decimal(n)) == Some(n)
  {
    if n >= 10 {
      var s := Decimal(n);
      assert s[..|s| - 1] == Decimal(n / 10);
      DecimalValueOfDecimal(n / 10);
    }
  }

  /** The fields of a token in the order they are written: subject, type claim, issued-at,
      expiration and signature. */
  function Fields(t: Token): seq<Option<string>> {
    [Some(t.subject), t.typeClaim, Some(Decimal(t.iat)), Some(Decimal(t.exp)), Some(t.signedWith)]
  }

  /** The token a list of fields describes, when it describes one. */
  function FromFields(fs: seq<Option<string>>): Option<Token> {
    if |fs| != 5 || fs[0].None? || fs[2].None? || fs[3].None? || fs[4].None? then None
    else
      var iat :- DecimalValue(fs[2].value);
      var exp :- DecimalValue(fs[3].value);
      Some(Token(fs[0].value, fs[1], iat, exp, fs[4].value))
  }

  function Serialize(fs: seq<Option<string>>): string {
    if fs == [] then [] else OptionalField(fs[0]) + Serialize(fs[1..])
  }

  /** Reads exactly `n` fields and nothing after them. */
  function ReadFields(s: string, n: nat): Option<seq<Option<string>>>
    decreases n
  {
    if n == 0 then
      if s == [] then Some([]) else None
    else
      var f :- ReadOptionalField(s);
      var more :- ReadFields(f.rest, n - 1);
      Some([f.field] + more)
  }

  lemma {:induction false} ReadFieldsOfSerialize(fs: seq<Option<string>>)
    ensures ReadFields(Serialize(fs), |fs|) == Some(fs)
  {
    if fs != [] {
      ReadOptionalFieldOfOptionalField(fs[0], Serialize(fs[1..]));
      ReadFieldsOfSerialize(fs[1..]);
      assert [fs[0]] + fs[1..] == fs;
    }
  }

  /** The compact form of a token. */
  function Compact(t: Token): string {
    Serialize(Fields(t))
  }

  /** Reads a compact token back; `None` for a string that is not one. */
  function Decode(s: string): Option<Token> {
    var fs :- ReadFields(s, 5);
    FromFields(fs)
  }

  /** The compact form is read back as the very token it was written from. */
  lemma DecodeCompact(t: Token)
    ensures Decode(Compact(t)) == Some(t)
  {
    ReadFieldsOfSerialize(Fields(t));
    DecimalValueOfDecimal(t.iat);
    DecimalValueOfDecimal(t.exp);
  }

  /** Two tokens with the same compact form are the same token. */
  lemma CompactInjective(t1: Token, t2: Token)
    ensures Compact(t1) == Compact(t2) ==> t1 == t2
  {
    DecodeCompact(t1);
    DecodeCompact(t2);
  }

  /** A blank string never decodes. */
  lemma DecodeBlank(s: string)
    requires !JavaString.HasText(s)
    ensures Decode(s) == None
  {
    if s != [] {
      assert JavaString.IsWhitespace(s[0]);
      assert ReadOptionalField(s) == None;
    }
  }

  // ---- parsing -----------------------------------------------------------------------------

  /** The exceptions of the parser other than expiry: IllegalArgumentException for a
      blank string, MalformedJwtException for one that is not a token, SignatureException
      for a token whose signature does not verify against the key. */
  datatype ParseFailure = IllegalArgument | Malformed | BadSignature

  /** `Parsed` is a returned claims set; `Expired` is ExpiredJwtException, which carries the
      claims; `Failed` is any other exception. */
  datatype ParseResult = Parsed(claims: Token) | Expired(claims: Token) | Failed(failure: ParseFailure)

  /** `parseClaimsJws(s).getBody()` with signing key `key` and clock `now` (milliseconds). */
  function ParseClaimsJws(s: string, key: string, now: nat): (r: ParseResult)
    ensures r.Parsed? <==> Decode(s).Some? && Decode(s).value.signedWith == key && LiveAt(Decode(s).value, now)
    ensures r.Expired? <==> Decode(s).Some? && Decode(s).value.signedWith == key && !LiveAt(Decode(s).value, now)
    ensures r.Parsed? || r.Expired? ==> Decode(s) == Some(r.claims)
    ensures r == Failed(BadSignature) <==> Decode(s).Some? && Decode(s).value.signedWith != key
    ensures r == Failed(IllegalArgument) <==> !JavaString.HasText(s)
  {
    if !JavaString.HasText(s) then
      DecodeBlank(s);
      Failed(IllegalArgument)
    else
      match Decode(s)
      case None => Failed(Malformed)
      case Some(t) =>
        if t.signedWith != key then Failed(BadSignature)
        else if !LiveAt(t, now) then Expired(t)
        else Parsed(t)
  }

  /** A token signed with another secret is refused as badly signed, whatever its claims and
      whatever the clock: the signature is checked before the expiration. */
  lemma OtherKeyRejected(t: Token, key: string, now: nat)
    requires t.signedWith != key
    ensures ParseClaimsJws(Compact(t), key, now) == Failed(BadSignature)
  {
    DecodeCompact(t);
  }

  /** A token signed with the key parses back to its own claims while the clock is at or
      before its expiration, and is reported expired (with those claims) after it. */
  lemma ParseCompact(t: Token, key: string, now: nat)
    requires t.signedWith == key
    ensures ParseClaimsJws(Compact(t), key, now) == if LiveAt(t, now) then Parsed(t) else Expired(t)
  {
    DecodeCompact(t);
  }
}
