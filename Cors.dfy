/** The CORS preflight reply both pipelines synthesise for an OPTIONS
    request when automatic CORS is on. */
module Cors {
  import opened PactModels
  import opened Text

  const AllowHeaders := "Access-Control-Allow-Headers"
  const AllowMethods := "Access-Control-Allow-Methods"
  const AllowOrigin := "Access-Control-Allow-Origin"
  const AllowedMethodList := "GET, HEAD, POST, PUT, DELETE, CONNECT, OPTIONS, TRACE, PATCH"

  /** Automatic CORS is on and the method is OPTIONS in any letter case. */
  predicate IsPreflight(autoCors: bool, request: Request) {
    autoCors && ToUpper(request.httpMethod) == "OPTIONS"
  }

  predicate IsRefererName(name: string) {
    ToLower(name) == "referer"
  }

  /** Position `k` holds the first header, in iteration order, that is named
      Referer in some letter case. */
  predicate IsFirstRefererAt(headers: seq<Header>, k: int) {
    0 <= k < |headers| && IsRefererName(headers[k].name) &&
    forall j :: 0 <= j < k ==> !IsRefererName(headers[j].name)
  }

  /** `find` over the request headers for the Referer header. */
  function FindReferer(headers: seq<Header>): (r: Option<Header>)
    ensures r.None? <==> forall k :: 0 <= k < |headers| ==> !IsRefererName(headers[k].name)
    ensures r.Some? ==> exists k :: IsFirstRefererAt(headers, k) && r.value == headers[k]
  {
    if |headers| == 0 then None
    else if IsRefererName(headers[0].name) then
      assert IsFirstRefererAt(headers, 0);
      Some(headers[0])
    else
      var r := FindReferer(headers[1..]);
      assert forall k :: 1 <= k < |headers| ==> headers[k] == headers[1..][k - 1];
      if r.Some? then
        var k :| IsFirstRefererAt(headers[1..], k) && r.value == headers[1..][k];
        assert IsFirstRefererAt(headers, k + 1);
        r
      else
        r
  }

  /** The value of `Access-Control-Allow-Origin`. */
  function CorsOrigin(request: Request, corsReferer: bool): string {
    if corsReferer then
      match request.headers
      case Some(h) =>
        (match FindReferer(h)
         case Some(header) => Join(header.values, ", ")
         case None => "*")
      case None => "*"
    else "*"
  }

  /** `*` unless Referer reflection is on and some header is named Referer
      in some letter case; then the values of the first such header, joined
      with ", ". */
  lemma CorsOriginSpec(request: Request, corsReferer: bool)
    ensures (!corsReferer || request.headers.None? ||
             forall k :: 0 <= k < |request.headers.value| ==> !IsRefererName(request.headers.value[k].name))
            ==> CorsOrigin(request, corsReferer) == "*"
    ensures forall k :: corsReferer && request.headers.Some? && IsFirstRefererAt(request.headers.value, k) ==>
              CorsOrigin(request, corsReferer) == Join(request.headers.value[k].values, ", ")
  {
    if corsReferer && request.headers.Some? {
      var h := request.headers.value;
      forall k | IsFirstRefererAt(h, k) ensures CorsOrigin(request, corsReferer) == Join(h[k].values, ", ") {
        var r := FindReferer(h);
        var k' :| IsFirstRefererAt(h, k') && r.value == h[k'];
      }
    }
  }

  /** The preflight reply: the default response (status 200, no body) with
      exactly the three CORS headers. */
  function CorsResponse(request: Request, corsReferer: bool): (r: Response)
    ensures r.status == 200 && r.body == Missing && r.headers.Some?
    ensures r.headers.value.Keys == {AllowHeaders, AllowMethods, AllowOrigin}
    ensures r.headers.value[AllowHeaders] == ["*"]
    ensures r.headers.value[AllowMethods] == [AllowedMethodList]
    ensures r.headers.value[AllowOrigin] == [CorsOrigin(request, corsReferer)]
  {
    DefaultResponse().(headers := Some(map[
      AllowHeaders := ["*"],
      AllowMethods := [AllowedMethodList],
      AllowOrigin := [CorsOrigin(request, corsReferer)]]))
  }
}
