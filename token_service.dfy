/**
 * The client's copy of the token logic (`TokenService`): the same construction as
 * the server's, stored under `auth_token` and announced to the API; a pattern
 * pre-check before asking the API; and `getWalletFromToken`, which only decodes.
 */
module TokenService {
  import opened Wrappers
  import Js
  import opened TokenAuthority
  import opened Browser

  /**
   * `generateToken`: builds the token as the server does, sends it to `/api/tokens`
   * (a failure there is only logged), and keeps it under `auth_token`.
   */
  method GenerateToken(env: Env, p: Primitives, wallet: string, now: nat, random: seq<Js.Byte>)
    returns (token: string)
    requires |random| == NonceBytes
    modifies env`localStorage, env`requests
    ensures token == IssueToken(p, wallet, now, random)
    ensures env.localStorage == old(env.localStorage)[AuthTokenKey := token]
    ensures GetItem(env.localStorage, AuthTokenKey) == Some(token)
    ensures env.requests == old(env.requests) + [PostToken(token, wallet)]
  {
    token := IssueToken(p, wallet, now, random);
    env.requests := env.requests + [PostToken(token, wallet)];
    env.localStorage := env.localStorage[AuthTokenKey := token];
  }

  /**
   * `validateToken` on the client: a token failing the pattern is refused with no
   * request; otherwise the answer is whether `GET /api/passwords` with the token as
   * bearer succeeds (`remoteOk`).
   */
  method ValidateToken(env: Env, token: string, remoteOk: bool) returns (valid: bool)
    modifies env`requests
    ensures !MatchesTokenPattern(token) ==> !valid && env.requests == old(env.requests)
    ensures MatchesTokenPattern(token) ==>
      valid == remoteOk && env.requests == old(env.requests) + [GetPasswords(token)]
  {
    if !MatchesTokenPattern(token) {
      return false;
    }
    env.requests := env.requests + [GetPasswords(token)];
    valid := remoteOk;
  }

  /**
   * `getWalletFromToken`: for a token matching the pattern, the text before the
   * first `:` of the decoded body; `None` when the pattern fails or decoding throws.
   */
  function WalletFromToken(p: Primitives, token: string): (r: Option<string>)
    ensures r.Some? ==> MatchesTokenPattern(token)
  {
    if !MatchesTokenPattern(token) then None
    else
      var data := Js.Split(token[|TokenPrefix|..], '.')[0];
      match p.base64Decode(data)
      case None => None
      case Some(decoded) => Some(WalletField(decoded))
  }

  /** The wallet is read from the body alone: the digest and the age play no part. */
  lemma WalletFromWellFormed(p: Primitives, t: string)
    requires MatchesTokenPattern(t)
    ensures WalletFromToken(p, t) ==
      match p.base64Decode(Body(t))
      case None => None
      case Some(data) => Some(WalletField(data))
  {
    SplitOfWellFormed(t);
  }

  /** A token generated for a wallet without `:` gives that wallet back. */
  lemma WalletFromTokenRoundTrip(p: Primitives, wallet: string, now: nat, random: seq<Js.Byte>)
    requires Sound(p) && |random| == NonceBytes && ':' !in wallet
    ensures WalletFromToken(p, IssueToken(p, wallet, now, random)) == Some(wallet)
  {
    IssuedTokenIsWellFormed(p, wallet, now, random);
    PayloadFields(wallet, now, random);
    WalletFromWellFormed(p, IssueToken(p, wallet, now, random));
  }

  /**
   * Whatever digest replaces the real one, the wallet is still read out, although
   * the server rejects the same token.
   */
  lemma WalletFromTokenIgnoresDigest(
    p: Primitives, wallet: string, issuedAt: nat, random: seq<Js.Byte>, digest: string, now: int)
    requires Sound(p) && |random| == NonceBytes && ':' !in wallet && IsHexDigest(digest)
    requires digest != p.sha256Hex(Payload(wallet, issuedAt, random))
    ensures var t := IssueToken(p, wallet, issuedAt, random);
      && MatchesTokenPattern(t)
      && WalletFromToken(p, Assemble(Body(t), digest)) == Some(wallet)
      && TokenAuthority.ValidateToken(p, Assemble(Body(t), digest), now) == None
  {
    var t := IssueToken(p, wallet, issuedAt, random);
    IssuedTokenIsWellFormed(p, wallet, issuedAt, random);
    PayloadFields(wallet, issuedAt, random);
    AssembledTokenMatches(Body(t), digest);
    WalletFromWellFormed(p, Assemble(Body(t), digest));
    ReplacedDigestRejected(p, wallet, issuedAt, random, digest, now);
  }

  /** An issued token yields its wallet however old it is, long after the server rejects it. */
  lemma WalletFromTokenIgnoresAge(p: Primitives, wallet: string, issuedAt: nat, random: seq<Js.Byte>, now: int)
    requires Sound(p) && |random| == NonceBytes && ':' !in wallet
    requires now - issuedAt > TokenExpiry
    ensures WalletFromToken(p, IssueToken(p, wallet, issuedAt, random)) == Some(wallet)
    ensures TokenAuthority.ValidateToken(p, IssueToken(p, wallet, issuedAt, random), now) == None
  {
    WalletFromTokenRoundTrip(p, wallet, issuedAt, random);
    RoundTrip(p, wallet, issuedAt, random, now);
  }

  /** Whenever the server accepts a token, the client reads the same wallet from it. */
  lemma ServerAcceptanceAgreesWithClient(p: Primitives, t: string, now: int, wallet: string)
    requires TokenAuthority.ValidateToken(p, t, now) == Some(wallet)
    ensures WalletFromToken(p, t) == Some(wallet)
  {
    AcceptedToken(p, t, now, wallet);
    WalletFromWellFormed(p, t);
  }

  /** The client and the server accept tokens of the same shape. */
  lemma ClientTokenAcceptedByServer(p: Primitives, wallet: string, now: nat, random: seq<Js.Byte>)
    requires Sound(p) && |random| == NonceBytes && ':' !in wallet
    ensures MatchesTokenPattern(IssueToken(p, wallet, now, random))
    ensures TokenAuthority.ValidateToken(p, IssueToken(p, wallet, now, random), now) == Some(wallet)
  {
    IssuedTokenIsWellFormed(p, wallet, now, random);
    RoundTripAtIssue(p, wallet, now, random);
  }
}
