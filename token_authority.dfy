/**
 * The `sl_` access-token format of the API server: issuance and validation.
 *
 * A token is `"sl_" + base64(data) + "." + sha256hex(data)` where
 * `data = wallet + ":" + issuedAt + ":" + nonce`. Validation recomputes the digest
 * from the token's own bytes; nothing is stored at issuance. The clock and the
 * random nonce are parameters; SHA-256 and base64 are the fields of a
 * `Primitives` value, and `Sound` states what the model relies on about them.
 */
module TokenAuthority {
  import opened Wrappers
  import Js

  const TokenPrefix: string := "sl_"
  /** Thirty days in milliseconds. */
  const TokenExpiry: int := 30 * 24 * 60 * 60 * 1000
  /** A SHA-256 digest in hex is 64 characters. */
  const DigestLength: nat := 64
  /** The nonce is 16 random bytes. */
  const NonceBytes: nat := 16

  // ---------------------------------------------------------------------------
  // the lexical pattern ^sl_[A-Za-z0-9+/=]+\.[a-f0-9]{64}$
  // ---------------------------------------------------------------------------

  predicate IsBase64Char(c: char) {
    'A' <= c <= 'Z' || 'a' <= c <= 'z' || '0' <= c <= '9' || c == '+' || c == '/' || c == '='
  }

  predicate IsBase64Text(s: string) {
    forall i :: 0 <= i < |s| ==> IsBase64Char(s[i])
  }

  predicate IsHexDigest(d: string) {
    |d| == DigestLength && Js.IsLowerHex(d)
  }

  /**
   * The token pattern, written as character classes: the prefix, at least one
   * base64 character, a `.`, and exactly 64 lowercase hex digits up to the end.
   * The base64 class has no `.`, so the separator sits 65 characters from the end.
   */
  predicate MatchesTokenPattern(t: string)
    ensures MatchesTokenPattern(t) ==>
      |t| > |TokenPrefix| + 1 + DigestLength
      && forall i :: |TokenPrefix| <= i < |t| && t[i] == '.' ==> i == |t| - DigestLength - 1
  {
    && |t| >= |TokenPrefix| + 2 + DigestLength
    && t[..|TokenPrefix|] == TokenPrefix
    && IsBase64Text(t[|TokenPrefix|..|t| - DigestLength - 1])
    && t[|t| - DigestLength - 1] == '.'
    && IsHexDigest(t[|t| - DigestLength..])
  }

  /** The base64 part of a well-formed token. */
  function Body(t: string): string
    requires MatchesTokenPattern(t)
  {
    t[|TokenPrefix|..|t| - DigestLength - 1]
  }

  /** The hex digest part of a well-formed token. */
  function Digest(t: string): string
    requires MatchesTokenPattern(t)
  {
    t[|t| - DigestLength..]
  }

  function Assemble(body: string, digest: string): string {
    TokenPrefix + body + "." + digest
  }

  /** A non-empty base64 body and a hex digest always make a well-formed token, and come back out of it. */
  lemma AssembledTokenMatches(body: string, digest: string)
    requires body != [] && IsBase64Text(body) && IsHexDigest(digest)
    ensures MatchesTokenPattern(Assemble(body, digest))
    ensures Body(Assemble(body, digest)) == body && Digest(Assemble(body, digest)) == digest
  {
    var t := Assemble(body, digest);
    assert t[..|TokenPrefix|] == TokenPrefix;
    assert t[|TokenPrefix|..|t| - DigestLength - 1] == body;
    assert t[|t| - DigestLength..] == digest;
  }

  /** Conversely, every well-formed token is assembled from its body and digest. */
  lemma MatchingTokenIsAssembled(t: string)
    requires MatchesTokenPattern(t)
    ensures Body(t) != [] && IsBase64Text(Body(t)) && IsHexDigest(Digest(t))
    ensures t == Assemble(Body(t), Digest(t))
  {
    assert t == t[..|TokenPrefix|] + Body(t) + [t[|t| - DigestLength - 1]] + Digest(t);
  }

  /** Splitting a well-formed token's tail on `.` gives exactly its body and its digest. */
  lemma SplitOfWellFormed(t: string)
    requires MatchesTokenPattern(t)
    ensures Js.Split(t[|TokenPrefix|..], '.') == [Body(t), Digest(t)]
  {
    var body, digest := Body(t), Digest(t);
    assert t[|TokenPrefix|..] == body + ['.'] + digest;
    assert '.' !in body by {
      forall i | 0 <= i < |body| ensures body[i] != '.' {
        assert IsBase64Char(body[i]);
      }
    }
    assert '.' !in digest by {
      forall i | 0 <= i < |digest| ensures digest[i] != '.' {
        assert Js.IsLowerHexChar(digest[i]);
      }
    }
    Js.SplitAfterFirst(body, '.', digest);
  }

  // ---------------------------------------------------------------------------
  // the primitives
  // ---------------------------------------------------------------------------

  /**
   * base64 encoding and decoding (`Buffer`; decoding yields `None` where it would
   * throw), the SHA-256 hex digest, and `Number()` of a timestamp field that is
   * neither empty nor all decimal digits, which `Sound` leaves unconstrained.
   */
  datatype Primitives = Primitives(
    base64Encode: string -> string,
    base64Decode: string -> Option<string>,
    sha256Hex: string -> string,
    parseNumber: string -> Js.Num)

  /** What the model assumes of the primitives. */
  ghost predicate Sound(p: Primitives) {
    && (forall s :: p.base64Decode(p.base64Encode(s)) == Some(s))
    && (forall s :: IsBase64Text(p.base64Encode(s)))
    && (forall s :: s != [] ==> p.base64Encode(s) != [])
    && (forall s :: IsHexDigest(p.sha256Hex(s)))
  }

  // ---------------------------------------------------------------------------
  // issuance
  // ---------------------------------------------------------------------------

  /** `${walletAddress}:${timestamp}:${randomPart}`. */
  function Payload(wallet: string, issuedAt: nat, random: seq<Js.Byte>): string {
    wallet + ":" + Js.Decimal(issuedAt) + ":" + Js.HexOf(random)
  }

  /** `generateToken`, with `Date.now()` and the random bytes as parameters. */
  function IssueToken(p: Primitives, wallet: string, issuedAt: nat, random: seq<Js.Byte>): (t: string)
    requires |random| == NonceBytes
    ensures var data, d := Payload(wallet, issuedAt, random), p.sha256Hex(Payload(wallet, issuedAt, random));
      && |t| > |TokenPrefix| + |d|
      && t[..|TokenPrefix|] == TokenPrefix
      && t[|TokenPrefix|..|t| - |d| - 1] == p.base64Encode(data)
      && t[|t| - |d| - 1] == '.'
      && t[|t| - |d|..] == d
  {
    var data := Payload(wallet, issuedAt, random);
    Assemble(p.base64Encode(data), p.sha256Hex(data))
  }

  /** Every issued token matches the pattern, carrying base64 of the payload and its digest. */
  lemma IssuedTokenIsWellFormed(p: Primitives, wallet: string, issuedAt: nat, random: seq<Js.Byte>)
    requires Sound(p) && |random| == NonceBytes
    ensures var t := IssueToken(p, wallet, issuedAt, random);
      && MatchesTokenPattern(t)
      && Body(t) == p.base64Encode(Payload(wallet, issuedAt, random))
      && Digest(t) == p.sha256Hex(Payload(wallet, issuedAt, random))
  {
    var data := Payload(wallet, issuedAt, random);
    assert data != [] by { assert data[|wallet|] == ':'; }
    AssembledTokenMatches(p.base64Encode(data), p.sha256Hex(data));
  }

  /** The payload splits on `:` into the wallet, the decimal time and the nonce. */
  lemma PayloadFields(wallet: string, issuedAt: nat, random: seq<Js.Byte>)
    requires ':' !in wallet
    ensures Js.Split(Payload(wallet, issuedAt, random), ':')
         == [wallet, Js.Decimal(issuedAt), Js.HexOf(random)]
  {
    var d, h := Js.Decimal(issuedAt), Js.HexOf(random);
    assert ':' !in d by {
      forall i | 0 <= i < |d| ensures d[i] != ':' { assert Js.IsDigit(d[i]); }
    }
    assert ':' !in h by {
      forall i | 0 <= i < |h| ensures h[i] != ':' { assert Js.IsLowerHexChar(h[i]); }
    }
    assert Payload(wallet, issuedAt, random) == wallet + [':'] + (d + [':'] + h);
    Js.SplitAfterFirst(wallet, ':', d + [':'] + h);
    Js.SplitAfterFirst(d, ':', h);
  }

  // ---------------------------------------------------------------------------
  // validation
  // ---------------------------------------------------------------------------

  /** `Number(timestampStr)` where `[walletAddress, timestampStr] = data.split(':')`. */
  function IssuedAt(p: Primitives, data: string): (n: Js.Num)
    ensures var fields := Js.Split(data, ':');
      && (|fields| < 2 ==> n == Js.NaN)
      && (|fields| >= 2 && Js.AllDigits(fields[1]) ==> n == Js.Finite(Js.DigitsValue(fields[1]) as real))
      && (|fields| >= 2 && !Js.AllDigits(fields[1]) ==> n == p.parseNumber(fields[1]))
  {
    Js.Number(Js.Field(Js.Split(data, ':'), 1), p.parseNumber)
  }

  /** `walletAddress` where `[walletAddress, timestampStr] = data.split(':')`. */
  function WalletField(data: string): string {
    Js.Split(data, ':')[0]
  }

  /** `Date.now() - timestamp > TOKEN_EXPIRY`; false when the timestamp is `NaN`. */
  predicate TooOld(issuedAt: Js.Num, now: int)
    ensures issuedAt == Js.NaN ==> !TooOld(issuedAt, now)
    ensures issuedAt.Finite? && (now - TokenExpiry) as real <= issuedAt.value ==> !TooOld(issuedAt, now)
    ensures issuedAt.Finite? && issuedAt.value < (now - TokenExpiry) as real ==> TooOld(issuedAt, now)
    ensures issuedAt.Infinity? ==> (TooOld(issuedAt, now) <==> !issuedAt.positive)
  {
    match issuedAt
    case NaN => false
    case Finite(v) => now as real - v > TokenExpiry as real
    case Infinity(positive) => !positive
  }

  /** `validateToken`: the wallet the token names, or `None` (`null`) on any failure. */
  function ValidateToken(p: Primitives, token: string, now: int): (r: Option<string>)
    ensures r.Some? ==> MatchesTokenPattern(token)
  {
    if !MatchesTokenPattern(token) then None
    else
      var parts := Js.Split(token[|TokenPrefix|..], '.');
      var prefixedData := parts[0];
      var hash := Js.Field(parts, 1);
      match p.base64Decode(prefixedData)
      case None => None
      case Some(data) =>
        if TooOld(IssuedAt(p, data), now) then None
        else if hash != Some(p.sha256Hex(data)) then None
        else Some(WalletField(data))
  }

  /**
   * On a well-formed token, validation decodes the body, rejects a payload that is
   * too old, rejects a digest that differs from the digest of the decoded payload,
   * and otherwise returns the text before the payload's first `:`.
   */
  lemma ValidateWellFormed(p: Primitives, t: string, now: int)
    requires MatchesTokenPattern(t)
    ensures ValidateToken(p, t, now) ==
      match p.base64Decode(Body(t))
      case None => None
      case Some(data) =>
        if TooOld(IssuedAt(p, data), now) || Digest(t) != p.sha256Hex(data) then None
        else Some(WalletField(data))
  {
    SplitOfWellFormed(t);
  }

  /** What an accepted token must have satisfied. */
  lemma AcceptedToken(p: Primitives, t: string, now: int, wallet: string)
    requires ValidateToken(p, t, now) == Some(wallet)
    ensures MatchesTokenPattern(t) && p.base64Decode(Body(t)).Some?
    ensures var data := p.base64Decode(Body(t)).value;
      && !TooOld(IssuedAt(p, data), now)
      && Digest(t) == p.sha256Hex(data)
      && wallet == WalletField(data)
  {
    ValidateWellFormed(p, t, now);
  }

  /** A digest that is not the SHA-256 of the decoded payload is rejected. */
  lemma DigestMismatchRejected(p: Primitives, t: string, data: string, now: int)
    requires MatchesTokenPattern(t) && p.base64Decode(Body(t)) == Some(data)
    requires Digest(t) != p.sha256Hex(data)
    ensures ValidateToken(p, t, now) == None
  {
    ValidateWellFormed(p, t, now);
  }

  /**
   * The expiry boundary: with a correct digest and a finite timestamp, a token is
   * rejected exactly when it is more than 30 days old. Exactly 30 days is accepted,
   * and so is a timestamp in the future; a negative one is as old as it reads.
   */
  lemma ExpiryBoundary(p: Primitives, t: string, data: string, issuedAt: real, now: int)
    requires MatchesTokenPattern(t) && p.base64Decode(Body(t)) == Some(data)
    requires Digest(t) == p.sha256Hex(data) && IssuedAt(p, data) == Js.Finite(issuedAt)
    ensures ValidateToken(p, t, now) == None <==> now as real - issuedAt > TokenExpiry as real
  {
    ValidateWellFormed(p, t, now);
  }

  /**
   * A payload whose timestamp reads as `NaN` (a missing field, or text that
   * `Number()` does not accept) is never rejected for age.
   */
  lemma NonNumericTimestampNeverExpires(p: Primitives, t: string, data: string, now: int)
    requires MatchesTokenPattern(t) && p.base64Decode(Body(t)) == Some(data)
    requires Digest(t) == p.sha256Hex(data) && IssuedAt(p, data) == Js.NaN
    ensures ValidateToken(p, t, now) == Some(WalletField(data))
  {
    ValidateWellFormed(p, t, now);
  }

  /**
   * The round trip: a token issued for a wallet without `:` validates to that
   * wallet as long as it is at most 30 days old, at any later or earlier time.
   */
  lemma RoundTrip(p: Primitives, wallet: string, issuedAt: nat, random: seq<Js.Byte>, now: int)
    requires Sound(p) && |random| == NonceBytes && ':' !in wallet
    ensures ValidateToken(p, IssueToken(p, wallet, issuedAt, random), now)
         == if now - issuedAt > TokenExpiry then None else Some(wallet)
  {
    var t := IssueToken(p, wallet, issuedAt, random);
    IssuedTokenIsWellFormed(p, wallet, issuedAt, random);
    PayloadFields(wallet, issuedAt, random);
    ValidateWellFormed(p, t, now);
  }

  /** Validated at the moment of issue, a token gives its wallet back. */
  lemma RoundTripAtIssue(p: Primitives, wallet: string, now: nat, random: seq<Js.Byte>)
    requires Sound(p) && |random| == NonceBytes && ':' !in wallet
    ensures ValidateToken(p, IssueToken(p, wallet, now, random), now) == Some(wallet)
  {
    RoundTrip(p, wallet, now, random, now);
  }

  /**
   * A wallet containing `:` never comes back whole: validation returns its text
   * before the first `:`, or rejects the token.
   */
  lemma ColonWalletTruncated(p: Primitives, head: string, tail: string, issuedAt: nat, random: seq<Js.Byte>, now: int)
    requires Sound(p) && |random| == NonceBytes && ':' !in head
    ensures var r := ValidateToken(p, IssueToken(p, head + ":" + tail, issuedAt, random), now);
      r == None || r == Some(head)
  {
    var wallet := head + ":" + tail;
    var data := Payload(wallet, issuedAt, random);
    IssuedTokenIsWellFormed(p, wallet, issuedAt, random);
    assert data == head + [':'] + (tail + ":" + Js.Decimal(issuedAt) + ":" + Js.HexOf(random));
    Js.SplitAfterFirst(head, ':', tail + ":" + Js.Decimal(issuedAt) + ":" + Js.HexOf(random));
    ValidateWellFormed(p, IssueToken(p, wallet, issuedAt, random), now);
  }

  /**
   * Replacing the digest of an issued token by any other 64 hex digits makes it
   * invalid.
   */
  lemma ReplacedDigestRejected(p: Primitives, wallet: string, issuedAt: nat, random: seq<Js.Byte>, digest: string, now: int)
    requires Sound(p) && |random| == NonceBytes && IsHexDigest(digest)
    requires digest != p.sha256Hex(Payload(wallet, issuedAt, random))
    ensures var t := IssueToken(p, wallet, issuedAt, random);
      MatchesTokenPattern(t) && ValidateToken(p, Assemble(Body(t), digest), now) == None
  {
    var data := Payload(wallet, issuedAt, random);
    var t := IssueToken(p, wallet, issuedAt, random);
    IssuedTokenIsWellFormed(p, wallet, issuedAt, random);
    AssembledTokenMatches(Body(t), digest);
    DigestMismatchRejected(p, Assemble(Body(t), digest), data, now);
  }

  /**
   * The payload need not have three fields: base64 of a bare wallet followed by its
   * digest is accepted at every time, since its timestamp is `NaN`.
   */
  lemma BareWalletTokenNeverExpires(p: Primitives, wallet: string, now: int)
    requires Sound(p) && wallet != [] && ':' !in wallet
    ensures ValidateToken(p, Assemble(p.base64Encode(wallet), p.sha256Hex(wallet)), now) == Some(wallet)
  {
    var t := Assemble(p.base64Encode(wallet), p.sha256Hex(wallet));
    AssembledTokenMatches(p.base64Encode(wallet), p.sha256Hex(wallet));
    assert IssuedAt(p, wallet) == Js.NaN;
    NonNumericTimestampNeverExpires(p, t, wallet, now);
  }

  /**
   * The digest needs no secret, so anyone can sign a payload of their own; such a
   * token is still rejected when its timestamp reads as more than 30 days old.
   */
  lemma SelfSignedOldPayloadRejected(p: Primitives, data: string, now: int)
    requires Sound(p) && data != [] && TooOld(IssuedAt(p, data), now)
    ensures ValidateToken(p, Assemble(p.base64Encode(data), p.sha256Hex(data)), now) == None
  {
    var t := Assemble(p.base64Encode(data), p.sha256Hex(data));
    AssembledTokenMatches(p.base64Encode(data), p.sha256Hex(data));
    ValidateWellFormed(p, t, now);
  }

  /**
   * A self-signed payload `w:-1`: `Number("-1")` is -1, so from the thirtieth day
   * after the epoch on the token is too old and rejected.
   */
  lemma NegativeTimestampRejected(p: Primitives, now: int)
    requires Sound(p) && p.parseNumber("-1") == Js.Finite(-1.0) && now + 1 > TokenExpiry
    ensures ValidateToken(p, Assemble(p.base64Encode("w:-1"), p.sha256Hex("w:-1")), now) == None
  {
    assert "w:-1" == "w" + [':'] + "-1";
    Js.SplitAfterFirst("w", ':', "-1");
    assert Js.Split("-1", ':') == ["-1"];
    assert !Js.AllDigits("-1") by { assert !Js.IsDigit("-1"[0]); }
    SelfSignedOldPayloadRejected(p, "w:-1", now);
  }

  // ---------------------------------------------------------------------------
  // the primitives can be met
  // ---------------------------------------------------------------------------

  /** A stand-in encoder: each character as that many `A`s and a closing `=`. */
  function UnaryEncode(s: string): (e: string)
    ensures IsBase64Text(e)
    ensures s != [] ==> e != []
  {
    if s == [] then [] else seq(s[0] as int, _ => 'A') + "=" + UnaryEncode(s[1..])
  }

  /** Reads back `UnaryEncode`, counting `A`s into `count` until each `=`. */
  function UnaryDecode(e: string, count: nat): Option<string>
    decreases |e|
  {
    if e == [] then (if count == 0 then Some([]) else None)
    else if e[0] == 'A' then UnaryDecode(e[1..], count + 1)
    else if e[0] == '=' && (count < 0xD800 || 0xE000 <= count < 0x11_0000) then
      match UnaryDecode(e[1..], 0)
      case None => None
      case Some(rest) => Some([count as char] + rest)
    else None
  }

  lemma {:induction false} UnaryRoundTrip(s: string)
    ensures UnaryDecode(UnaryEncode(s), 0) == Some(s)
  {
    if s != [] {
      var rest := UnaryEncode(s[1..]);
      UnaryRoundTrip(s[1..]);
      UnaryDecodeCounts(s[0] as int, "=" + rest, 0);
      assert UnaryEncode(s) == seq(s[0] as int, _ => 'A') + ("=" + rest);
      assert ("=" + rest)[1..] == rest;
      assert s == [s[0]] + s[1..];
    }
  }

  lemma {:induction false} UnaryDecodeCounts(n: nat, e: string, count: nat)
    ensures UnaryDecode(seq(n, _ => 'A') + e, count) == UnaryDecode(e, count + n)
  {
    if n > 0 {
      var e' := seq(n - 1, _ => 'A') + e;
      assert seq(n, _ => 'A') + e == "A" + e';
      assert ("A" + e')[1..] == e';
      UnaryDecodeCounts(n - 1, e, count + 1);
    } else {
      assert seq(n, _ => 'A') + e == e;
    }
  }

  function WitnessPrimitives(): Primitives {
    Primitives(
      s => UnaryEncode(s),
      e => UnaryDecode(e, 0),
      s => seq(DigestLength, _ => '0'),
      s => Js.NaN)
  }

  /** `Sound` is not contradictory: some primitives satisfy it. */
  lemma SoundIsSatisfiable()
    ensures Sound(WitnessPrimitives())
  {
    var p := WitnessPrimitives();
    forall s ensures p.base64Decode(p.base64Encode(s)) == Some(s) {
      UnaryRoundTrip(s);
    }
  }
}
