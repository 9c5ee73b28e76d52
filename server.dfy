/** The two token routes of the API server, as thin wrappers over the token functions. */
module Server {
  import opened Wrappers
  import Js
  import opened TokenAuthority

  datatype Body =
    | TokenIssued(token: string)
    | ErrorMessage(error: string)
    | Validity(valid: bool, walletAddress: Option<string>)

  datatype Reply = Reply(status: nat, body: Body)

  /**
   * `POST /api/token/generate`: 400 when `walletAddress` is missing or empty,
   * otherwise a freshly issued token.
   */
  function GenerateRoute(p: Primitives, walletAddress: Option<string>, now: nat, random: seq<Js.Byte>): (r: Reply)
    requires |random| == NonceBytes
    ensures r.status == 400 <==> !Js.Truthy(walletAddress)
    ensures r.status != 400 ==> r == Reply(200, TokenIssued(IssueToken(p, walletAddress.value, now, random)))
  {
    if !Js.Truthy(walletAddress) then Reply(400, ErrorMessage("walletAddress missing"))
    else Reply(200, TokenIssued(IssueToken(p, walletAddress.value, now, random)))
  }

  /**
   * `POST /api/token/validate`: `valid: false` with status 400 whenever validation
   * gives `null` or an empty wallet; a missing token fails the pattern.
   */
  function ValidateRoute(p: Primitives, token: Option<string>, now: int): (r: Reply)
    ensures r.body.Validity?
    ensures r.body.valid <==> token.Some? && Js.Truthy(ValidateToken(p, token.value, now))
    ensures r.status == (if r.body.valid then 200 else 400)
    ensures r.body.valid ==> r.body.walletAddress == ValidateToken(p, token.value, now)
  {
    var wallet := if token.Some? then ValidateToken(p, token.value, now) else None;
    if !Js.Truthy(wallet) then Reply(400, Validity(false, None))
    else Reply(200, Validity(true, wallet))
  }

  /** A token minted by the generate route is reported valid, for its wallet, by the validate route. */
  lemma GeneratedTokenValidates(p: Primitives, wallet: string, now: nat, random: seq<Js.Byte>)
    requires Sound(p) && |random| == NonceBytes && wallet != "" && ':' !in wallet
    ensures var g := GenerateRoute(p, Some(wallet), now, random);
      && g.status == 200 && g.body.TokenIssued?
      && ValidateRoute(p, Some(g.body.token), now) == Reply(200, Validity(true, Some(wallet)))
  {
    RoundTripAtIssue(p, wallet, now, random);
  }
}
