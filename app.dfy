/** The application-level logic of server/src/app.js: the configured CORS origin
    list, the CORS header decision, and the health endpoint. */
module App {
  import opened Common
  import opened Text

  /** `clientOrigin.split(',').map(v => v.trim()).filter(Boolean)`. */
  function AllowedOrigins(config: string): (r: seq<string>)
    ensures forall i :: 0 <= i < |r| ==> r[i] != "" && IsTrimmed(r[i]) && ',' !in r[i]
    ensures forall o :: o in r <==> o != "" && o in TrimAll(Split(config, ','))
  {
    SplitTrimFilter(config, ',')
  }

  /** A list written back as a comma-joined string configures the same list. */
  lemma AllowedOriginsRoundTrip(origins: seq<string>)
    requires forall i :: 0 <= i < |origins| ==> origins[i] != "" && IsTrimmed(origins[i]) && ',' !in origins[i]
    ensures AllowedOrigins(Join(origins, ',')) == origins
  {
    SplitTrimFilterJoin(origins, ',');
  }

  /** The origins of `a,b` are those of `a` followed by those of `b`: configuration order is kept. */
  lemma AllowedOriginsAround(a: string, b: string)
    ensures AllowedOrigins(a + [','] + b) == AllowedOrigins(a) + AllowedOrigins(b)
  {
    SplitTrimFilterAround(a, b, ',');
  }

  /** The headers the CORS middleware sets, and whether it ends the request. */
  datatype CorsDecision = CorsDecision(allowOrigin: Option<string>, varyOrigin: bool, allowMethods: string,
                                       allowHeaders: string, endWith204: bool)

  /** The CORS middleware for a request from `origin` ("" when the header is absent). */
  function Cors(allowed: seq<string>, origin: string, httpMethod: string): (d: CorsDecision)
    ensures "*" in allowed ==> d.allowOrigin == Some("*") && !d.varyOrigin
    ensures "*" !in allowed ==> (d.allowOrigin.Some? <==> origin != "" && origin in allowed)
    ensures "*" !in allowed && d.allowOrigin.Some? ==> d.allowOrigin.value == origin && d.varyOrigin
    ensures d.allowOrigin.None? ==> !d.varyOrigin
    ensures d.endWith204 <==> httpMethod == "OPTIONS"
    ensures d.allowMethods == "GET,POST,PUT,PATCH,DELETE,OPTIONS" && d.allowHeaders == "Content-Type,Authorization"
  {
    var (allowOrigin, vary) :=
      if "*" in allowed then (Some("*"), false)
      else if origin != "" && origin in allowed then (Some(origin), true)
      else (None, false);
    CorsDecision(allowOrigin, vary, "GET,POST,PUT,PATCH,DELETE,OPTIONS", "Content-Type,Authorization",
                 httpMethod == "OPTIONS")
  }

  /** No origin outside the configured list is ever granted: the header is either the
      configured wildcard or an origin the configuration names. */
  lemma CorsGrantsOnlyConfigured(config: string, origin: string, httpMethod: string)
    ensures var d := Cors(AllowedOrigins(config), origin, httpMethod);
            d.allowOrigin.Some? ==> d.allowOrigin.value in AllowedOrigins(config)
  {
  }

  // ---- GET /api/health ----

  datatype Health = Health(httpStatus: int, success: bool, status: string, database: string)

  /** The name of a mongoose connection `readyState`, or "unknown". */
  function StateName(readyState: int): (name: string)
    ensures name == "unknown" <==> !(0 <= readyState <= 3)
    ensures name == "connected" <==> readyState == 1
  {
    if readyState == 0 then "disconnected"
    else if readyState == 1 then "connected"
    else if readyState == 2 then "connecting"
    else if readyState == 3 then "disconnecting"
    else "unknown"
  }

  /** The health report for the database's ready state. */
  function HealthCheck(readyState: int): (h: Health)
    ensures h.httpStatus == 200 <==> readyState == 1
    ensures h.httpStatus == 200 || h.httpStatus == 503
    ensures h.success <==> h.httpStatus == 200
    ensures h.status == (if h.success then "OK" else "DEGRADED")
    ensures h.database == StateName(readyState)
  {
    var connected := readyState == 1;
    Health(if connected then 200 else 503, connected, if connected then "OK" else "DEGRADED", StateName(readyState))
  }

  /** The report is healthy exactly when it names the database connected. */
  lemma HealthyIffConnected(readyState: int)
    ensures HealthCheck(readyState).success <==> HealthCheck(readyState).database == "connected"
  {
  }
}
