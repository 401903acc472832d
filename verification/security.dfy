/** The admission checks of the server: `validateSecret` (the optional HMAC
    signature on a request) and `isAllowedUrl` (the optional host allowlist).
    The SHA-256 HMAC is an uninterpreted function of the secret and the signed
    text; URL parsing is an input (the host name, or `None` when the URL does
    not parse). */
module Security {
  import opened Wrappers
  import opened Text

  /** The hex digest `createHmac("sha256", secret).update(data).digest("hex")`. */
  type Hmac = (string, string) -> string

  /** The parsed request body: absent (`null`/`undefined`), a string, or an
      object whose `JSON.stringify` text is `json` (`None` when it throws). */
  datatype Body = NoBody | TextBody(text: string) | ObjectBody(json: Option<string>)

  /** What the checks read from a request: the raw `x-cliq-signature` header,
      the raw body text captured by the body parser (absent for bodies it did
      not parse) and the parsed body. */
  datatype Request = Request(signature: Option<string>, rawBody: Option<string>, body: Body)

  /** The settings read from the environment: `CLIQ_SECRET`, `STRICT_HMAC`,
      `ENFORCE_ALLOWLIST` and the parsed `ALLOWED_DOMAINS`. */
  datatype Config = Config(secret: string, strict: bool, enforceAllowlist: bool, allowedDomains: seq<string>)

  /** The signature as compared: the header, or empty, trimmed. */
  function SignatureOf(req: Request): string
  {
    Trim(req.signature.GetOr(""))
  }

  /** The text signed when no raw body was captured. */
  function ReconstructedBody(body: Body): string
  {
    match body
    case NoBody => ""
    case TextBody(t) => t
    case ObjectBody(json) => json.GetOr("")
  }

  /** The text the signature is checked against; `None` in strict mode when no
      raw body was captured. */
  function SignedData(req: Request, strict: bool): (d: Option<string>)
    ensures req.rawBody.Some? ==> d == req.rawBody
    ensures req.rawBody.None? ==> (d.None? <==> strict)
    ensures req.rawBody.None? && !strict ==> d == Some(ReconstructedBody(req.body))
  {
    match req.rawBody
    case Some(raw) => Some(raw)
    case None => if strict then None else Some(ReconstructedBody(req.body))
  }

  /** `validateSecret`: requests without a signature pass; otherwise the
      signature must equal the HMAC of the signed text, and strict mode
      refuses requests whose raw body was not captured. */
  function ValidateSecret(req: Request, cfg: Config, hmac: Hmac): (ok: bool)
    ensures SignatureOf(req) == [] ==> ok
    ensures SignatureOf(req) != [] && cfg.strict && req.rawBody.None? ==> !ok
    ensures SignatureOf(req) != [] && req.rawBody.Some? ==>
      (ok <==> SignatureOf(req) == hmac(cfg.secret, req.rawBody.value))
    ensures SignatureOf(req) != [] && !cfg.strict && req.rawBody.None? ==>
      (ok <==> SignatureOf(req) == hmac(cfg.secret, ReconstructedBody(req.body)))
  {
    var signature := SignatureOf(req);
    if signature == [] then true
    else
      match SignedData(req, cfg.strict)
      case None => false
      case Some(data) => signature == hmac(cfg.secret, data)
  }

  /** A request that passes and carries a signature carries the HMAC of some
      text the request itself supplies: its raw body, or (outside strict mode
      and only when no raw body was captured) its reconstructed body. */
  lemma AcceptedSignatureIsGenuine(req: Request, cfg: Config, hmac: Hmac)
    requires ValidateSecret(req, cfg, hmac) && SignatureOf(req) != []
    ensures req.rawBody.Some? ==> SignatureOf(req) == hmac(cfg.secret, req.rawBody.value)
    ensures req.rawBody.None? ==>
      !cfg.strict && SignatureOf(req) == hmac(cfg.secret, ReconstructedBody(req.body))
  {
  }

  /** Strict mode accepts no request the lenient mode refuses, and the two
      agree whenever the raw body was captured. */
  lemma StrictNeverLooser(req: Request, cfg: Config, hmac: Hmac)
    ensures ValidateSecret(req, cfg.(strict := true), hmac) ==> ValidateSecret(req, cfg.(strict := false), hmac)
    ensures req.rawBody.Some? ==>
      ValidateSecret(req, cfg.(strict := true), hmac) == ValidateSecret(req, cfg.(strict := false), hmac)
  {
  }

  /** The secret only matters to requests that carry a signature. */
  lemma UnsignedIgnoresSecret(req: Request, cfg1: Config, cfg2: Config, hmac: Hmac)
    requires SignatureOf(req) == []
    ensures ValidateSecret(req, cfg1, hmac) == ValidateSecret(req, cfg2, hmac)
  {
  }

  // ---------- isAllowedUrl ----------

  /** The matching rule of the source: `hostname.endsWith(d)`. */
  predicate SuffixMatches(host: string, domain: string)
  {
    EndsWith(host, domain)
  }

  function AnySuffixAsWritten(host: string, domains: seq<string>): (r: bool)
    ensures r <==> exists i :: 0 <= i < |domains| && SuffixMatches(host, domains[i])
  {
    if domains == [] then false
    else SuffixMatches(host, domains[0]) || AnySuffixAsWritten(host, domains[1..])
  }

  /** `isAllowedUrl` as written: an unparsable URL is refused; with the
      allowlist off everything else passes; with it on the host must end with
      one of the listed domains. */
  function IsAllowedUrlAsWritten(host: Option<string>, cfg: Config): (ok: bool)
    ensures host.None? ==> !ok
    ensures host.Some? && !cfg.enforceAllowlist ==> ok
    ensures host.Some? && cfg.enforceAllowlist ==>
      (ok <==> exists i :: 0 <= i < |cfg.allowedDomains| && SuffixMatches(host.value, cfg.allowedDomains[i]))
  {
    match host
    case None => false
    case Some(h) => !cfg.enforceAllowlist || AnySuffixAsWritten(h, cfg.allowedDomains)
  }

  /** The rule as written admits a look-alike host: with `example.com` listed,
      `evilexample.com` passes. */
  lemma SuffixRuleAdmitsLookalike()
    ensures var cfg := Config("", false, true, ["example.com"]);
      && IsAllowedUrlAsWritten(Some("evilexample.com"), cfg)
      && !IsAllowedUrl(Some("evilexample.com"), cfg)
  {
    var h := "evilexample.com";
    assert h[|h| - |"example.com"|..] == "example.com";
    assert h != "example.com";
    assert !EndsWith(h, ".example.com") by {
      assert h[|h| - |".example.com"|] == 'l';
    }
  }

  /** A host names an allowlisted domain when it is that domain or one of its
      subdomains. */
  predicate HostMatches(host: string, domain: string)
  {
    host == domain || EndsWith(host, "." + domain)
  }

  function AnyDomain(host: string, domains: seq<string>): (r: bool)
    ensures r <==> exists i :: 0 <= i < |domains| && HostMatches(host, domains[i])
  {
    if domains == [] then false
    else HostMatches(host, domains[0]) || AnyDomain(host, domains[1..])
  }

  /** `isAllowedUrl` with the host rule corrected to "the domain or a
      subdomain of it"; every other branch as in the source. */
  function IsAllowedUrl(host: Option<string>, cfg: Config): (ok: bool)
    ensures host.None? ==> !ok
    ensures host.Some? && !cfg.enforceAllowlist ==> ok
    ensures host.Some? && cfg.enforceAllowlist ==>
      (ok <==> exists i :: 0 <= i < |cfg.allowedDomains| && HostMatches(host.value, cfg.allowedDomains[i]))
  {
    match host
    case None => false
    case Some(h) => !cfg.enforceAllowlist || AnyDomain(h, cfg.allowedDomains)
  }

  lemma EndsWithTrans(s: string, t: string, u: string)
    requires EndsWith(s, t) && EndsWith(t, u)
    ensures EndsWith(s, u)
  {
    assert s[|s| - |u|..] == t[|t| - |u|..];
  }

  /** The corrected rule admits nothing the source's rule refuses, and it
      still admits every listed domain and each of its subdomains. */
  lemma CorrectedRuleIsNarrower(host: Option<string>, cfg: Config)
    ensures IsAllowedUrl(host, cfg) ==> IsAllowedUrlAsWritten(host, cfg)
    ensures host.Some? && (exists i :: 0 <= i < |cfg.allowedDomains| && HostMatches(host.value, cfg.allowedDomains[i]))
      ==> IsAllowedUrl(host, cfg)
  {
    if IsAllowedUrl(host, cfg) && host.Some? && cfg.enforceAllowlist {
      var h := host.value;
      var i :| 0 <= i < |cfg.allowedDomains| && HostMatches(h, cfg.allowedDomains[i]);
      var d := cfg.allowedDomains[i];
      if h != d {
        ConcatEnds(".", [], d);
        assert "." + [] + d == "." + d;
        EndsWithTrans(h, "." + d, d);
      }
      assert EndsWith(h, d);
    }
  }
}
