/**
 * JSON Web Tokens as the auth flow consumes them (`jwt.sign`, `jwt.verify`,
 * `jwt.decode`). The signature cryptography is left out: a token carries its
 * claims and the identity of the secret it was signed with, and it verifies
 * exactly under that secret while unexpired. A token is text made of decimal
 * numerals each followed by '.', so, like a real base64url JWT, it never
 * contains a space.
 */
module Jwt {
  import opened Wrappers
  import opened Decimal

  /** `sub` is a string (`String(user.id)`) or a number (`user.id`). */
  datatype Subject = TextSubject(text: string) | NumericSubject(id: nat)

  datatype Payload = Payload(sub: Subject, role: string)

  /** What a token holds: the payload, issue and expiry times in seconds, the signature. */
  datatype Claims = Claims(payload: Payload, iat: nat, exp: nat, signature: string)

  // ---- claims as a list of numbers

  predicate IsCode(n: nat) {
    n < 0xD800 || 0xE000 <= n < 0x11_0000
  }

  function Codes(s: string): (xs: seq<nat>)
    ensures |xs| == |s|
    ensures forall i :: 0 <= i < |xs| ==> IsCode(xs[i]) && xs[i] as char == s[i]
  {
    if s == [] then [] else [s[0] as int] + Codes(s[1..])
  }

  function Chars(xs: seq<nat>): (s: string)
    requires forall i :: 0 <= i < |xs| ==> IsCode(xs[i])
    ensures |s| == |xs|
    ensures forall i :: 0 <= i < |xs| ==> IsCode(xs[i]) && s[i] == xs[i] as char
  {
    if xs == [] then [] else assert IsCode(xs[0]); [xs[0] as char] + Chars(xs[1..])
  }

  /** A string as its length followed by its code points. */
  function StringFields(s: string): seq<nat> {
    [|s|] + Codes(s)
  }

  function ReadString(xs: seq<nat>): Option<(string, seq<nat>)> {
    if xs == [] then None
    else
      var n := xs[0];
      if n < |xs| && forall i :: 1 <= i <= n ==> IsCode(xs[i]) then
        Some((Chars(xs[1..n + 1]), xs[n + 1..]))
      else None
  }

  lemma ReadStringFields(s: string, rest: seq<nat>)
    ensures ReadString(StringFields(s) + rest) == Some((s, rest))
  {
    var xs := StringFields(s) + rest;
    var n := |s|;
    assert xs[1..n + 1] == Codes(s);
    assert xs[n + 1..] == rest;
    assert Chars(Codes(s)) == s;
  }

  function SubjectFields(sub: Subject): seq<nat> {
    match sub
    case TextSubject(t) => [0] + StringFields(t)
    case NumericSubject(n) => [1, n]
  }

  function ReadSubject(xs: seq<nat>): Option<(Subject, seq<nat>)> {
    if xs == [] then None
    else if xs[0] == 0 then
      match ReadString(xs[1..])
      case None => None
      case Some((t, rest)) => Some((TextSubject(t), rest))
    else if xs[0] == 1 && |xs| >= 2 then Some((NumericSubject(xs[1]), xs[2..]))
    else None
  }

  lemma ReadSubjectFields(sub: Subject, rest: seq<nat>)
    ensures ReadSubject(SubjectFields(sub) + rest) == Some((sub, rest))
  {
    var xs := SubjectFields(sub) + rest;
    match sub
    case TextSubject(t) =>
      assert xs == [0] + (StringFields(t) + rest);
      assert xs[0] == 0 && xs[1..] == StringFields(t) + rest;
      ReadStringFields(t, rest);
    case NumericSubject(n) =>
      assert xs == [1, n] + rest;
      assert xs[0] == 1 && xs[1] == n && xs[2..] == rest;
  }

  function Serialize(c: Claims): seq<nat> {
    SubjectFields(c.payload.sub)
    + (StringFields(c.payload.role) + ([c.iat, c.exp] + StringFields(c.signature)))
  }

  function Deserialize(xs: seq<nat>): Option<Claims> {
    match ReadSubject(xs)
    case None => None
    case Some((sub, r1)) =>
      match ReadString(r1)
      case None => None
      case Some((role, r2)) =>
        if |r2| < 2 then None
        else
          match ReadString(r2[2..])
          case None => None
          case Some((sig, r3)) =>
            if r3 == [] then Some(Claims(Payload(sub, role), r2[0], r2[1], sig)) else None
  }

  lemma {:induction false} DeserializeSerialize(c: Claims)
    ensures Deserialize(Serialize(c)) == Some(c)
  {
    var tail := [c.iat, c.exp] + StringFields(c.signature);
    var r1 := StringFields(c.payload.role) + tail;
    ReadSubjectFields(c.payload.sub, r1);
    ReadStringFields(c.payload.role, tail);
    assert tail[2..] == StringFields(c.signature) + [];
    ReadStringFields(c.signature, []);
  }

  // ---- a list of numbers as text

  /** Each number as its numeral followed by '.'. */
  function JoinNumerals(xs: seq<nat>): string {
    if xs == [] then "" else NatToString(xs[0]) + "." + JoinNumerals(xs[1..])
  }

  /** Length of the leading run of digits. */
  function DigitRun(s: string): (k: nat)
    ensures k <= |s| && AllDigits(s[..k])
    ensures k < |s| ==> !IsDigit(s[k])
  {
    if s != [] && IsDigit(s[0]) then 1 + DigitRun(s[1..]) else 0
  }

  function SplitNumerals(s: string): Option<seq<nat>>
    decreases |s|
  {
    if s == [] then Some([])
    else
      var k := DigitRun(s);
      if k == 0 || k == |s| || s[k] != '.' then None
      else
        match SplitNumerals(s[k + 1..])
        case None => None
        case Some(rest) => Some([DigitsValue(s[..k])] + rest)
  }

  lemma {:induction false} DigitRunOfPrefix(a: string, b: string)
    requires AllDigits(a)
    requires b != [] && !IsDigit(b[0])
    ensures DigitRun(a + b) == |a|
  {
    if a != [] {
      assert (a + b)[1..] == a[1..] + b;
      DigitRunOfPrefix(a[1..], b);
    }
  }

  /** A run of digits followed by a dot splits off as one numeral. */
  lemma SplitNumeralsStep(d: string, rest: string)
    requires d != [] && AllDigits(d)
    ensures SplitNumerals(d + "." + rest) ==
      match SplitNumerals(rest)
      case None => None
      case Some(ys) => Some([DigitsValue(d)] + ys)
  {
    var s := d + "." + rest;
    DigitRunOfPrefix(d, "." + rest);
    assert s == d + ("." + rest);
    assert s[..|d|] == d;
    assert s[|d|] == '.';
    assert s[|d| + 1..] == rest;
  }

  lemma {:induction false} SplitJoinNumerals(xs: seq<nat>)
    ensures SplitNumerals(JoinNumerals(xs)) == Some(xs)
  {
    if xs != [] {
      SplitNumeralsStep(NatToString(xs[0]), JoinNumerals(xs[1..]));
      ValueOfNatToString(xs[0]);
      SplitJoinNumerals(xs[1..]);
      assert [xs[0]] + xs[1..] == xs;
    }
  }

  lemma {:induction false} JoinNumeralsAlphabet(xs: seq<nat>)
    ensures forall i :: 0 <= i < |JoinNumerals(xs)| ==> IsDigit(JoinNumerals(xs)[i]) || JoinNumerals(xs)[i] == '.'
  {
    if xs != [] {
      JoinNumeralsAlphabet(xs[1..]);
    }
  }

  // ---- tokens

  function Encode(c: Claims): string {
    JoinNumerals(Serialize(c))
  }

  /** `jwt.decode(token)`: the claims, without checking signature or expiry. */
  function Decode(token: string): Option<Claims> {
    match SplitNumerals(token)
    case None => None
    case Some(xs) => Deserialize(xs)
  }

  lemma DecodeEncode(c: Claims)
    ensures Decode(Encode(c)) == Some(c)
  {
    SplitJoinNumerals(Serialize(c));
    DeserializeSerialize(c);
  }

  /**
   * `jwt.sign(payload, secret, { expiresIn })` at wall-clock time `nowMs`
   * (milliseconds): `iat` is the current second and `exp` lies `lifetime`
   * seconds later. The token decodes to exactly those claims, is not empty
   * and holds no space.
   */
  function Sign(p: Payload, secret: string, lifetime: nat, nowMs: nat): (token: string)
    ensures Decode(token) == Some(Claims(p, nowMs / 1000, nowMs / 1000 + lifetime, secret))
    ensures token != []
    ensures forall i :: 0 <= i < |token| ==> token[i] != ' '
  {
    var c := Claims(p, nowMs / 1000, nowMs / 1000 + lifetime, secret);
    DecodeEncode(c);
    JoinNumeralsAlphabet(Serialize(c));
    Encode(c)
  }

  /**
   * `jwt.verify(token, secret)` at `nowMs`: the payload when the token is
   * well formed, signed with `secret` and its current second is before `exp`;
   * None where the library throws.
   */
  function Verify(token: string, secret: string, nowMs: nat): Option<Payload> {
    match Decode(token)
    case None => None
    case Some(c) => if c.signature == secret && nowMs / 1000 < c.exp then Some(c.payload) else None
  }

  /**
   * A signed token verifies, giving back its payload, exactly under its own
   * secret and before its expiry second.
   */
  lemma VerifySigned(p: Payload, secret: string, lifetime: nat, issuedMs: nat, key: string, nowMs: nat)
    ensures Verify(Sign(p, secret, lifetime, issuedMs), key, nowMs)
         == if key == secret && nowMs / 1000 < issuedMs / 1000 + lifetime then Some(p) else None
  {
  }
}
