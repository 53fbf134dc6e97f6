/** Route rules as configured, and the same nine fields once compiled by the router. */
module Routes {
  import opened Text

  /** `config.RouteRule`; `origin.Route` has the same fields with host and path normalised. */
  datatype RouteRule = RouteRule(
    host: string,
    path: string,
    target: string,
    stripPathPrefix: bool,
    originServerName: string,
    insecureSkipVerify: bool,
    insecureSkipVerifySet: bool,
    passHostHeader: bool,
    passHostHeaderSet: bool)

  /** The host a rule is compiled under. */
  function NormalizeRouteHost(host: string): string {
    ToLower(TrimSpace(host))
  }

  /** Normalising a host twice is normalising it once. */
  lemma NormalizeRouteHostIdempotent(host: string)
    ensures NormalizeRouteHost(NormalizeRouteHost(host)) == NormalizeRouteHost(host)
  {
    TrimSpaceShape(host);
    ToLowerKeepsTrimmed(TrimSpace(host));
    TrimSpaceOfTrimmed(ToLower(TrimSpace(host)));
    ToLowerIdempotent(TrimSpace(host));
  }
}
