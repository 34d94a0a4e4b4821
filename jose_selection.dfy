/**
 * `Finder.checkHeaderAndParameterForJwsPattern` and
 * `Finder.checkHeaderAndParameterForJwePattern`: pick the request header or
 * parameter that carries the JOSE value. Burp's request information becomes
 * a sequence of header lines and a sequence of parameters, and the configured
 * parameter names become a set.
 */
module JoseSelection {
  import opened Wrappers
  import opened JoseChecks

  datatype JoseType = JWS | JWE

  /** A request parameter: its name and its value, which Burp may leave null. */
  datatype Parameter = Parameter(name: string, value: Option<string>)

  /** Where a JOSE value was found: a whole header line or a parameter. */
  datatype Origin = HeaderLine(line: string) | RequestParameter(param: Parameter)

  /** What the Finder hands back: the origin, tagged with the JOSE type. */
  datatype JoseParameter = JoseParameter(origin: Origin, joseType: JoseType)

  /** `header.split(":", 2)[0]`: the text before the first ':', or the whole
      line when it has none. */
  function HeaderName(header: string): (name: string)
    ensures |name| <= |header| && name == header[..|name|]
    ensures ':' !in name
    ensures |name| == |header| || header[|name|] == ':'
  {
    if header == [] || header[0] == ':' then []
    else
      var rest := HeaderName(header[1..]);
      assert header[..|rest| + 1] == [header[0]] + header[1..][..|rest|];
      [header[0]] + rest
  }

  /** The pattern predicate that belongs to a JOSE type. */
  function CheckFor(joseType: JoseType, candidate: Option<string>): bool {
    match joseType
    case JWS => CheckJwsPattern(candidate)
    case JWE => CheckJwePattern(candidate)
  }

  /** The header's name is configured and the whole line passes the check. */
  predicate HeaderQualifies(joseType: JoseType, names: set<string>, header: string) {
    HeaderName(header) in names && CheckFor(joseType, Some(header))
  }

  /** The parameter's name is configured and its value passes the check. */
  predicate ParameterQualifies(joseType: JoseType, names: set<string>, param: Parameter) {
    param.name in names && CheckFor(joseType, param.value)
  }

  /** `xs[k]` satisfies `q` and no later element does. */
  ghost predicate IsLastSatisfying<T>(xs: seq<T>, k: int, q: T -> bool) {
    0 <= k < |xs| && q(xs[k]) && forall k' :: k < k' < |xs| ==> !q(xs[k'])
  }

  /** The last element of `xs` that satisfies `q`. */
  function LastSatisfying<T>(xs: seq<T>, q: T -> bool): (r: Option<T>)
    ensures r.None? <==> forall k :: 0 <= k < |xs| ==> !q(xs[k])
    ensures r.Some? ==> exists k :: IsLastSatisfying(xs, k, q) && xs[k] == r.value
  {
    if xs == [] then None
    else if q(xs[|xs| - 1]) then Some(xs[|xs| - 1])
    else
      var r := LastSatisfying(xs[..|xs| - 1], q);
      assert r.Some? ==> forall k :: IsLastSatisfying(xs[..|xs| - 1], k, q) ==> IsLastSatisfying(xs, k, q);
      r
  }

  lemma LastSatisfyingSnoc<T>(xs: seq<T>, x: T, q: T -> bool)
    ensures LastSatisfying(xs + [x], q) == if q(x) then Some(x) else LastSatisfying(xs, q)
  {
    assert (xs + [x])[..|xs|] == xs;
  }

  /** The parameter `params[k]` qualifies and no later one does. */
  ghost predicate IsLastQualifyingParameter(joseType: JoseType, names: set<string>, params: seq<Parameter>, k: int) {
    IsLastSatisfying(params, k, p => ParameterQualifies(joseType, names, p))
  }

  /** The header line `headers[k]` qualifies and no later one does. */
  ghost predicate IsLastQualifyingHeader(joseType: JoseType, names: set<string>, headers: seq<string>, k: int) {
    IsLastSatisfying(headers, k, h => HeaderQualifies(joseType, names, h))
  }

  /** The result of the two loops: the last qualifying parameter if there is
      one, otherwise the last qualifying header line, otherwise null (None). */
  function Selection(joseType: JoseType, headers: seq<string>, params: seq<Parameter>, names: set<string>)
    : (r: Option<JoseParameter>)
    ensures r.None? <==>
      (forall k :: 0 <= k < |headers| ==> !HeaderQualifies(joseType, names, headers[k])) &&
      (forall k :: 0 <= k < |params| ==> !ParameterQualifies(joseType, names, params[k]))
    ensures r.Some? ==> r.value.joseType == joseType
    ensures (r.Some? && r.value.origin.RequestParameter?) <==>
      exists k :: 0 <= k < |params| && ParameterQualifies(joseType, names, params[k])
    ensures r.Some? && r.value.origin.RequestParameter? ==>
      exists k :: IsLastQualifyingParameter(joseType, names, params, k) && params[k] == r.value.origin.param
    ensures r.Some? && r.value.origin.HeaderLine? ==>
      exists k :: IsLastQualifyingHeader(joseType, names, headers, k) && headers[k] == r.value.origin.line
  {
    match LastSatisfying(params, p => ParameterQualifies(joseType, names, p))
    case Some(p) => Some(JoseParameter(RequestParameter(p), joseType))
    case None =>
      match LastSatisfying(headers, h => HeaderQualifies(joseType, names, h))
      case Some(h) => Some(JoseParameter(HeaderLine(h), joseType))
      case None => None
  }

  /** One more header line: it wins if it qualifies (no parameters yet). */
  lemma SelectionNextHeader(joseType: JoseType, headers: seq<string>, i: nat, names: set<string>)
    requires i < |headers|
    ensures Selection(joseType, headers[..i + 1], [], names) ==
      if HeaderQualifies(joseType, names, headers[i]) then Some(JoseParameter(HeaderLine(headers[i]), joseType))
      else Selection(joseType, headers[..i], [], names)
  {
    assert headers[..i + 1] == headers[..i] + [headers[i]];
    LastSatisfyingSnoc(headers[..i], headers[i], h => HeaderQualifies(joseType, names, h));
  }

  /** One more parameter: it wins if it qualifies. */
  lemma SelectionNextParameter(joseType: JoseType, headers: seq<string>, params: seq<Parameter>, i: nat, names: set<string>)
    requires i < |params|
    ensures Selection(joseType, headers, params[..i + 1], names) ==
      if ParameterQualifies(joseType, names, params[i]) then Some(JoseParameter(RequestParameter(params[i]), joseType))
      else Selection(joseType, headers, params[..i], names)
  {
    assert params[..i + 1] == params[..i] + [params[i]];
    LastSatisfyingSnoc(params[..i], params[i], p => ParameterQualifies(joseType, names, p));
  }

  /** The loops shared by the JWS and the JWE variant. */
  method FindJoseParameter(joseType: JoseType, headers: seq<string>, params: seq<Parameter>, names: set<string>)
    returns (joseParameter: Option<JoseParameter>)
    ensures joseParameter == Selection(joseType, headers, params, names)
  {
    joseParameter := None;
    for i := 0 to |headers|
      invariant joseParameter == Selection(joseType, headers[..i], [], names)
    {
      SelectionNextHeader(joseType, headers, i, names);
      if HeaderQualifies(joseType, names, headers[i]) {
        joseParameter := Some(JoseParameter(HeaderLine(headers[i]), joseType));
      }
    }
    assert headers[..|headers|] == headers;
    for i := 0 to |params|
      invariant joseParameter == Selection(joseType, headers, params[..i], names)
    {
      SelectionNextParameter(joseType, headers, params, i, names);
      if ParameterQualifies(joseType, names, params[i]) {
        joseParameter := Some(JoseParameter(RequestParameter(params[i]), joseType));
      }
    }
    assert params[..|params|] == params;
  }

  /** `Finder.checkHeaderAndParameterForJwsPattern`. */
  method CheckHeaderAndParameterForJwsPattern(headers: seq<string>, params: seq<Parameter>, names: set<string>)
    returns (joseParameter: Option<JoseParameter>)
    ensures joseParameter == Selection(JWS, headers, params, names)
  {
    joseParameter := FindJoseParameter(JWS, headers, params, names);
  }

  /** `Finder.checkHeaderAndParameterForJwePattern`. */
  method CheckHeaderAndParameterForJwePattern(headers: seq<string>, params: seq<Parameter>, names: set<string>)
    returns (joseParameter: Option<JoseParameter>)
    ensures joseParameter == Selection(JWE, headers, params, names)
  {
    joseParameter := FindJoseParameter(JWE, headers, params, names);
  }
}
