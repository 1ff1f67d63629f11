/** The token gate of Server/middleware/auth.js: read the token from the
    `x-auth-token` header, verify it, bind the decoded `user` to `req.user`
    and call `next()`, or answer 401. JWT verification (signature, format,
    expiry against the clock) is the parameter `verify`, which yields None
    where `jwt.verify` throws. */
module AuthMiddleware {
  import opened Common
  import opened Http

  const TokenHeader := "x-auth-token"

  const NoToken := Reply(401, Msg("No token, authorization denied"))

  const BadToken := Reply(401, Msg("Token is not valid"))

  /** `req.header(name)`: undefined when the request does not carry the header. */
  function HeaderValue(headers: map<string, string>, name: string): (v: Option<string>)
    ensures v.Some? <==> name in headers
    ensures v.Some? ==> v.value == headers[name]
  {
    if name in headers then Some(headers[name]) else None
  }

  /** What the gate decides for a request. */
  datatype Verdict = Reject(reply: Reply) | Bind(user: Option<Principal>)

  /** The gate's decision: a missing or empty token is refused first, then a
      token that does not verify; a verified token binds its `user` claim.
      Both refusals are 401 and differ only in their message. */
  function Check(token: Option<string>, verify: string -> Option<Claims>): (v: Verdict)
    ensures v.Bind? <==> token.Some? && token.value != "" && verify(token.value).Some?
    ensures token.None? || token.value == "" ==> v == Reject(NoToken)
    ensures token.Some? && token.value != "" && verify(token.value).None? ==> v == Reject(BadToken)
    ensures v.Reject? ==> v.reply.status == 401
    ensures v.Bind? ==> v.user == verify(token.value).value.user
  {
    if token.None? || token.value == "" then Reject(NoToken)
    else match verify(token.value)
      case None => Reject(BadToken)
      case Some(decoded) => Bind(decoded.user)
  }

  /** The middleware itself. Exactly one of "respond" and "call next" happens
      (the result is one or the other); `req.user` is written only when `next`
      is called, and then to the token's `user` claim. */
  method Authenticate(req: Request, verify: string -> Option<Claims>) returns (step: Step)
    modifies req
    ensures var v := Check(HeaderValue(req.headers, TokenHeader), verify);
      && (v.Bind? ==> step == Next && req.user == v.user)
      && (v.Reject? ==> step == Respond(v.reply) && req.user == old(req.user))
  {
    var token := HeaderValue(req.headers, TokenHeader);
    if token.None? || token.value == "" {
      return Respond(NoToken);
    }
    var decoded := verify(token.value);
    if decoded.None? {
      return Respond(BadToken);
    }
    req.user := decoded.value.user;
    step := Next;
  }
}
