/** lib/auth.ts: the origin of a request, the login URL of the auth proxy, and
    the token carried in a callback URL fragment. */
module Auth {
  import opened Wrappers
  import opened JsString

  /** Name of the cookie that holds the token. */
  const AuthCookie: string := "token"

  /** `getOriginFromRequestHeaders(host, proto)`: the scheme falls back to
      `http` only when `proto` is undefined (`??`), so an empty `proto` is kept. */
  function OriginFromRequestHeaders(host: string, proto: Option<string>): (origin: string)
    ensures proto.None? ==> StartsWith(origin, "http://")
    ensures proto.Some? ==> StartsWith(origin, proto.value + "://")
    ensures EndsWith(origin, host)
  {
    var scheme := if proto.Some? then proto.value else "http";
    scheme + "://" + host
  }

  /** Reads an origin back into scheme and host, splitting at the first `:`,
      which must open `://`. */
  function SplitOrigin(origin: string): Option<(string, string)> {
    var k := |Split(origin, ':')[0]|;
    if k + 3 <= |origin| && origin[k..k + 3] == "://" then Some((origin[..k], origin[k + 3..])) else None
  }

  /** The origin keeps both its parts: a scheme without `:` and the host are
      recovered from it. */
  lemma OriginRoundTrip(host: string, proto: Option<string>)
    requires proto.Some? ==> ':' !in proto.value
    ensures SplitOrigin(OriginFromRequestHeaders(host, proto)) == Some((proto.GetOr("http"), host))
  {
    var scheme := proto.GetOr("http");
    var origin := OriginFromRequestHeaders(host, proto);
    assert origin == scheme + "://" + host;
    SplitFirstPiece(origin, ':');
    var p := Split(origin, ':')[0];
    assert origin[|scheme|] == ':';
    assert |p| == |scheme| by {
      assert origin[..|scheme|] == scheme;
      assert forall j :: 0 <= j < |scheme| ==> origin[j] == scheme[j] != ':';
    }
    assert origin[..|scheme|] == scheme;
    assert origin[|scheme| + 3..] == host;
  }

  /** A URL as the model sees it: the base it was resolved against, its path
      and its query parameters in order. */
  datatype Url = Url(base: string, pathname: string, query: seq<(string, string)>)

  /** `URLSearchParams.get`: the first value for `key`. */
  function GetParam(query: seq<(string, string)>, key: string): (r: Option<string>)
    ensures r.Some? <==> exists k :: 0 <= k < |query| && query[k].0 == key
    ensures r.Some? ==> exists k :: 0 <= k < |query| && query[k] == (key, r.value) &&
                                    forall m :: 0 <= m < k ==> query[m].0 != key
  {
    if query == [] then None
    else if query[0].0 == key then Some(query[0].1)
    else GetParam(query[1..], key)
  }

  /** Drops every pair whose name is `key`. */
  function RemoveParam(query: seq<(string, string)>, key: string): (r: seq<(string, string)>)
    ensures forall k :: 0 <= k < |r| ==> r[k].0 != key
  {
    if query == [] then []
    else if query[0].0 == key then RemoveParam(query[1..], key)
    else [query[0]] + RemoveParam(query[1..], key)
  }

  /** `URLSearchParams.set`: the first pair named `key` takes the value and the
      others named `key` go; without one, the pair is appended. */
  function SetParam(query: seq<(string, string)>, key: string, value: string): seq<(string, string)> {
    if query == [] then [(key, value)]
    else if query[0].0 == key then [(key, value)] + RemoveParam(query[1..], key)
    else [query[0]] + SetParam(query[1..], key, value)
  }

  lemma {:induction false} GetRemoveOther(query: seq<(string, string)>, key: string, other: string)
    requires other != key
    ensures GetParam(RemoveParam(query, key), other) == GetParam(query, other)
  {
    if query != [] {
      GetRemoveOther(query[1..], key, other);
    }
  }

  /** After `set`, `get` of that key returns the value set and `get` of any
      other key is as before. */
  lemma {:induction false} GetAfterSet(query: seq<(string, string)>, key: string, value: string, other: string)
    ensures GetParam(SetParam(query, key, value), key) == Some(value)
    ensures other != key ==> GetParam(SetParam(query, key, value), other) == GetParam(query, other)
  {
    if query != [] {
      GetAfterSet(query[1..], key, value, other);
      if query[0].0 == key && other != key {
        GetRemoveOther(query[1..], key, other);
      }
    }
  }

  /** The callback path appended to the origin. */
  const CallbackPath: string := "/auth/callback"

  /** `buildLoginUrl(origin)`: path `/google` on the proxy, with `client_id`
      and `redirect_uri` set. The proxy base and client id are the two
      environment variables it reads. */
  function BuildLoginUrl(origin: string, proxyBase: string, clientId: string): (url: Url)
    ensures url.base == proxyBase && url.pathname == "/google"
    ensures GetParam(url.query, "client_id") == Some(clientId)
    ensures GetParam(url.query, "redirect_uri") == Some(origin + CallbackPath)
    ensures forall k :: 0 <= k < |url.query| ==> url.query[k].0 in {"client_id", "redirect_uri"}
  {
    var redirectUri := origin + CallbackPath;
    var q := SetParam(SetParam([], "client_id", clientId), "redirect_uri", redirectUri);
    GetAfterSet(SetParam([], "client_id", clientId), "redirect_uri", redirectUri, "client_id");
    Url(proxyBase, "/google", q)
  }

  /** The one leading `#` of a fragment, if there is one, removed. */
  function StripHash(hash: string): (raw: string)
    ensures StartsWith(hash, "#") ==> hash == "#" + raw
    ensures !StartsWith(hash, "#") ==> raw == hash
  {
    if StartsWith(hash, "#") then hash[1..] else hash
  }

  /** JavaScript truthiness of a `get` result: present and not empty. */
  predicate Truthy(v: Option<string>) {
    v.Some? && v.value != ""
  }

  /** `get("token") || get("access_token") || get("id_token") || ""`. */
  function TokenFromParams(params: seq<(string, string)>): string {
    var t := GetParam(params, "token");
    var a := GetParam(params, "access_token");
    var i := GetParam(params, "id_token");
    if Truthy(t) then t.value else if Truthy(a) then a.value else if Truthy(i) then i.value else ""
  }

  /** `parseTokenFromHash(hash)`: `parse` stands for `URLSearchParams`, whose
      percent-decoding is not modelled. */
  function ParseTokenFromHash(hash: string, parse: string -> seq<(string, string)>): string {
    TokenFromParams(parse(StripHash(hash)))
  }

  /** Precedence: the first of `token`, `access_token`, `id_token` whose first
      value is non-empty wins; an empty or missing one falls through; with none
      the result is empty. */
  lemma TokenPrecedence(params: seq<(string, string)>)
    ensures var r := TokenFromParams(params);
      var t := GetParam(params, "token");
      var a := GetParam(params, "access_token");
      var i := GetParam(params, "id_token");
      && (Truthy(t) ==> r == t.value)
      && (!Truthy(t) && Truthy(a) ==> r == a.value)
      && (!Truthy(t) && !Truthy(a) && Truthy(i) ==> r == i.value)
      && (r == "" <==> !Truthy(t) && !Truthy(a) && !Truthy(i))
      && (r != "" ==> exists k :: 0 <= k < |params| && params[k].1 == r
                                  && params[k].0 in {"token", "access_token", "id_token"})
  {
  }

  /** The token read from a fragment is the one read from the same text
      without its leading `#`, and follows the precedence of `TokenFromParams`
      on what `parse` makes of the text after the `#`. */
  lemma HashIsOptional(rest: string, parse: string -> seq<(string, string)>)
    requires !StartsWith(rest, "#")
    ensures ParseTokenFromHash("#" + rest, parse) == ParseTokenFromHash(rest, parse)
    ensures var t := GetParam(parse(rest), "token");
      Truthy(t) ==> ParseTokenFromHash("#" + rest, parse) == t.value
    ensures ParseTokenFromHash("#" + rest, parse) == "" <==>
      !Truthy(GetParam(parse(rest), "token")) && !Truthy(GetParam(parse(rest), "access_token"))
      && !Truthy(GetParam(parse(rest), "id_token"))
  {
    assert StripHash("#" + rest) == rest;
  }

  /** Exactly one `#` is removed: a second one stays part of the fragment. */
  lemma StripHashOnce(rest: string)
    ensures StripHash("#" + rest) == rest
    ensures StartsWith(rest, "#") ==> StartsWith(StripHash("#" + rest), "#")
  {
  }
}
