# Verified model of the webui-vue HTTP client core

The web UI talks to a Redfish server through one shared HTTP client. This client
is configured in `src/store/api.js`. Around the library configuration, that file
holds a small sequential core, and this project models it in Dafny:

- `findMessageId(data, key, registry = 'Base')` scans a response body's
  `@Message.ExtendedInfo` list. It returns the first message whose
  `MessageId`, split on `.`, has the registry name as its first segment and
  `key` as its last segment. Version segments in between are ignored.
- `isPasswordExpired(data)` asks `findMessageId` for `PasswordChangeRequired`
  in the `Base` registry.
- `getResponseCount(responses)` counts the errors and the successes of a batch
  of settled results with a loop.
- The response-error interceptor decides what to do on a failure. On 401
  outside the login request, it redirects to `/login` and commits a logout. On
  403, it navigates to the password-change page if the password has expired,
  and otherwise commits the unauthorized flag. In every case it then rejects.
- `set_auth_token(token)` sets the `X-Auth-Token` common header of the shared
  client.

Files:

- `js.dfy` (module `Js`) holds the JavaScript notions the core relies on:
  `undefined`, a call that may throw, and `String.prototype.split` on one
  character, with `Array.prototype.join` as its inverse.
- `messages.dfy` (module `MessageRegistry`) holds the lookup.
- `responses.dfy` (module `ResponseCount`) holds the counting loop.
- `interceptor.dfy` (module `ResponseInterceptor`) holds the decision table as
  a function. It returns the effects, in order, plus the reason for the
  rejection.
- `client.dfy` (module `ApiClient`) holds the client object, whose common
  header map `set_auth_token` updates in place.

Messages without an id:

- A message without `MessageId` is not skipped. The callback calls
  `i.MessageId.split('.')` (src/store/api.js:116), and this throws a
  `TypeError` when `MessageId` is absent. The model reproduces the throw.
  `find` stops at the first match, so a message without an id that comes
  after a match is never read.
- If the throw happens inside the interceptor's 403 branch, the handler's
  promise is rejected with that `TypeError`, not with the original error.
  `RejectsWithOriginalError` states exactly when the original error comes back.
  `IdentifiedMessagesRejectOriginal` shows that it always does when every
  message has an id, which Redfish requires.

## Model

| member | source | states |
|---|---|---|
| `Js.Split` | src/store/api.js:116 | `split('.')` never returns an empty array, and no segment contains the separator |
| `Js.JoinSplit` | src/store/api.js:116 | joining the segments of a split with the separator gives back the original string |
| `Js.SplitJoin` | src/store/api.js:116 | splitting the join of a non-empty list of separator-free segments gives back the list; the segments themselves may be empty |
| `Js.SplitConcat` | src/store/api.js:116 | splitting `a + "." + b` gives the segments of `a` followed by the segments of `b` |
| `Js.SplitWithoutSeparator` | src/store/api.js:116 | a string without a dot splits into itself alone |
| `Js.SplitLength` | src/store/api.js:116 | the number of segments is the number of separators plus one |
| `Js.SplitFirst` | src/store/api.js:116-117 | `words[0]` is the whole string when there is one segment, and otherwise is followed by a separator at the start of the string |
| `Js.SplitLast` | src/store/api.js:116-117 | `words[words.length - 1]` is the whole string when there is one segment, and otherwise the string ends with a separator followed by it |
| `MessageRegistry.Scan` | src/store/api.js:115-118 | `find` stops at a matching message, at a message without `MessageId` (the callback throws), or past the end; every message before the stop has an id that does not match; it runs to the end exactly when every message is passed over |
| `MessageRegistry.FindMessageId` | src/store/api.js:110-120 | an absent body or absent `@Message.ExtendedInfo` gives `undefined` and never throws; a returned message is at some index, matches the registry (defaulted) and the key, and every earlier message was passed over; `undefined` exactly when every message is passed over; it throws exactly when a message without `MessageId` is reached before any match |
| `MessageRegistry.FindMessageIdReturnsFirst` | src/store/api.js:115 | the first matching message, with all earlier ones passed over, is what is returned |
| `MessageRegistry.FindMessageIdTotalOnIdentifiedMessages` | src/store/api.js:115-116 | when every message has a `MessageId`, the lookup never throws |
| `MessageRegistry.RegistryName` | src/store/api.js:110 | the `registry = 'Base'` default parameter: an omitted registry is `"Base"`, a given one is used as it is |
| `MessageRegistry.Messages` | src/store/api.js:111-114 | `data?.['@Message.ExtendedInfo']` with the `extInfoMsgs &&` guard: an absent body or an absent property leaves nothing to scan; otherwise the scan covers the property's list, unchanged |
| `MessageRegistry.IdMatches` | src/store/api.js:116-117 | the `find` callback's test on a `MessageId`: its last `.`-segment is the key and its first is the registry; a match needs a dot-free key and registry, and `IdMatchesIff` and `DottedNamesNeverMatch` characterise it as a condition on the id string |
| `MessageRegistry.DefaultRegistryIsBase` | src/store/api.js:110 | an omitted registry is the same as `"Base"` |
| `MessageRegistry.IdMatchesIff` | src/store/api.js:116-117 | for a dot-free key and registry, an id matches if and only if it starts with `<registry>.` and ends with `.<key>`, or is a single segment equal to both |
| `MessageRegistry.VersionSegmentsIgnored` | src/store/api.js:99-103 | `<registry>.<anything>.<key>` and `<registry>.<key>` match, whatever the version segments are |
| `MessageRegistry.OtherRegistryNeverMatches` | src/store/api.js:117 | an id whose first segment is a different registry never matches, whatever follows |
| `MessageRegistry.DottedNamesNeverMatch` | src/store/api.js:116-117 | a key or registry containing a dot never matches |
| `MessageRegistry.RegistryExamples` | src/store/api.js:99-103 | `Base.1.0.Foo` and `Base.1.0.0.Foo` match key `Foo` in `Base`; `Other.1.0.Foo` does not |
| `MessageRegistry.IsPasswordExpired` | src/store/api.js:95-97 | true exactly when the lookup for `PasswordChangeRequired` in `Base` finds a message, false exactly when it returns `undefined`, and it throws exactly when the lookup throws |
| `MessageRegistry.PasswordExpiredExample` | src/store/api.js:95-97 | a body holding `Base.<version>.PasswordChangeRequired` signals an expired password |
| `MessageRegistry.PasswordNotExpiredExamples` | src/store/api.js:111-114 | an absent body, a body without `@Message.ExtendedInfo`, and a message of another registry do not signal one |
| `ResponseCount.ErrorCount` | src/store/api.js:84-85 | the number of error elements is at most the number of elements |
| `ResponseCount.SuccessCount` | src/store/api.js:84-86 | the number of success elements is at most the number of elements |
| `ResponseCount.GetResponseCount` | src/store/api.js:80-93 | the loop's `errorCount` is the number of error elements, its `successCount` is the number of success elements, and the two add up to the length of the batch |
| `ResponseCount.CountsPartition` | src/store/api.js:84-86 | every element is counted exactly once, as a success or as an error |
| `ResponseCount.ErrorCountIsNumberOfErrors` | src/store/api.js:85 | the error count is the size of the set of positions holding an error |
| `ResponseCount.ErrorCountAppend` | src/store/api.js:84-85 | the error count of a concatenated batch is the sum of the counts of its parts |
| `ResponseCount.MixedBatchExample` | src/store/api.js:80-93 | `[responseA, new Error('x'), responseB]` has two successes and one error |
| `ResponseInterceptor.OnResponseError` | src/store/api.js:28-51 | the decision table: 401 outside `/login` gives exactly redirect-then-logout; 401 on `/login` gives no effect; 403 gives the password-change navigation or the unauthorized commit according to `isPasswordExpired`, or no effect and a `TypeError` rejection if it throws; any other status gives no effect; otherwise the rejection carries the original error |
| `ResponseInterceptor.RejectsWithOriginalError` | src/store/api.js:50 | the handler rejects with the unchanged original error unless the 403 expiry check throws, and a thrown rejection comes with no effect |
| `ResponseInterceptor.IdentifiedMessagesRejectOriginal` | src/store/api.js:41-50 | when every message has a `MessageId`, the handler always rejects with the original error |
| `ResponseInterceptor.EffectsByResponse` | src/store/api.js:32-48 | each effect occurs exactly under its condition on status, url and body; at most two effects; never both a password-change and an unauthorized effect |
| `ResponseInterceptor.BranchesExclusive` | src/store/api.js:32-48 | a login effect never comes with a 403 effect |
| `ResponseInterceptor.ForbiddenWithExpiredPassword` | src/store/api.js:41-43 | a 403 with `Base.<version>.PasswordChangeRequired` navigates to the password-change page only, then rejects with the original error |
| `ResponseInterceptor.ForbiddenWithoutMessages` | src/store/api.js:44-47 | a 403 without `@Message.ExtendedInfo` commits the unauthorized flag only, then rejects with the original error |
| `ApiClient.WithAuthToken` | src/store/api.js:76 | `X-Auth-Token` is set to the token, the key set grows by exactly that header, and every other header keeps its value |
| `ApiClient.WithAuthTokenIdempotent` | src/store/api.js:75-77 | setting the same token twice is the same as setting it once |
| `ApiClient.WithAuthTokenLastWins` | src/store/api.js:75-77 | a later token replaces an earlier one |
| `ApiClient.Client.constructor` | src/store/api.js:10-15 | the instance starts with the common headers `Accept: application/json` and `X-Requested-With: XMLHttpRequest` |
| `ApiClient.Client.SetAuthToken` | src/store/api.js:75-77 | the shared header map becomes the old one with only `X-Auth-Token` changed |
| `ApiClient.SetAuthTokenTwice` | src/store/api.js:75-77 | two calls with the same token leave the headers as one call does, and the token is what later requests carry |

## Left out

- Axios instance creation, `withCredentials` and the library's other default headers (src/store/api.js:10-15) are library configuration. Only the two common headers set there are modelled, as the instance's starting header map.
- The cache setup (src/store/api.js:17-26) is left out. Its behaviour lives in the caching library, and its `localStorage` backend and `console.log` debug hook are I/O.
- The verb passthroughs `get`, `delete`, `post`, `patch` and `put`, and the combinators `all` and `spread` (src/store/api.js:54-74), are left out. They forward to Axios, and they are asynchronous.
- Navigation (`window.location`, `router.push`) and Vuex `store.commit` are represented only by the effect values they would produce.
- `ResponseInterceptor.OnResponseError`: requires `error.response` to be present. For a network error without a response, the source reads `response.status` of `undefined` at line 32, and the model does not say what follows.
- `MessageRegistry.FindMessageId`: where the source returns a falsy non-array `@Message.ExtendedInfo` as it is (`null`, `0`, `""`), the model returns `undefined`. `isPasswordExpired`, the only caller here, maps both to `false`. A truthy non-array value, which would have no `find` method, cannot be expressed in the model, and neither can a `MessageId` that is not a string.
- `ResponseInterceptor.Response`: `config.url` is always a string. The loose comparison `!=` with `'/login'` is then ordinary string inequality.
- `ApiClient.Client.SetAuthToken`: the token is a string. Passing `undefined`, which stores `undefined` as the header value, is not modelled.
- Sparse arrays, whose holes `forEach` and `find` treat specially, are not modelled. Every array is a dense sequence.
