/** The shared HTTP client's common request headers and `set_auth_token`
    (src/store/api.js:10-15, 75-77). */
module ApiClient {

  const AuthTokenHeader: string := "X-Auth-Token"

  /** The common headers the client instance starts with: the two set on the
      library defaults before the instance is created. */
  const DefaultCommonHeaders: map<string, string> :=
    map["Accept" := "application/json", "X-Requested-With" := "XMLHttpRequest"]

  /** `headers` with `X-Auth-Token` set to `token` and nothing else changed. */
  function WithAuthToken(headers: map<string, string>, token: string): (r: map<string, string>)
    ensures AuthTokenHeader in r && r[AuthTokenHeader] == token
    ensures r.Keys == headers.Keys + {AuthTokenHeader}
    ensures forall k :: k in headers && k != AuthTokenHeader ==> r[k] == headers[k]
  {
    headers[AuthTokenHeader := token]
  }

  /** Setting the same token twice is setting it once. */
  lemma WithAuthTokenIdempotent(headers: map<string, string>, token: string)
    ensures WithAuthToken(WithAuthToken(headers, token), token) == WithAuthToken(headers, token)
  {
  }

  /** A later token replaces an earlier one. */
  lemma WithAuthTokenLastWins(headers: map<string, string>, first: string, second: string)
    ensures WithAuthToken(WithAuthToken(headers, first), second) == WithAuthToken(headers, second)
  {
  }

  /** The module-level client instance; `commonHeaders` is its
      `defaults.headers.common`, shared by every later request. */
  class Client {
    var commonHeaders: map<string, string>

    constructor ()
      ensures commonHeaders == DefaultCommonHeaders
    {
      commonHeaders := DefaultCommonHeaders;
    }

    /** `set_auth_token(token)`. */
    method SetAuthToken(token: string)
      modifies this
      ensures commonHeaders == WithAuthToken(old(commonHeaders), token)
    {
      commonHeaders := commonHeaders[AuthTokenHeader := token];
    }
  }

  /** Two calls with the same token leave the headers as one call does, and
      every later request carries that token. */
  method SetAuthTokenTwice(client: Client, token: string)
    modifies client
    ensures client.commonHeaders == WithAuthToken(old(client.commonHeaders), token)
    ensures client.commonHeaders[AuthTokenHeader] == token
  {
    client.SetAuthToken(token);
    ghost var once := client.commonHeaders;
    client.SetAuthToken(token);
    assert client.commonHeaders == once by {
      WithAuthTokenIdempotent(old(client.commonHeaders), token);
    }
  }
}
