/** The response-error interceptor (src/store/api.js:28-51): on a failing
    response it decides which navigation and store mutations to perform, and
    then rejects. Navigation and store commits are modelled as effect values
    returned in the order the handler performs them. */
module ResponseInterceptor {
  import opened Js
  import opened MessageRegistry

  /** The parts of a failing response the handler reads: its status code,
      the URL of the request (`response.config.url`) and its body. */
  datatype Response = Response(status: int, url: string, data: Option<Body>)

  /** The error Axios hands to the handler; `response` is `None` for errors
      without a response, such as network failures. */
  datatype HttpError = HttpError(response: Option<Response>)

  /** The side effects the handler can perform. */
  datatype Effect =
    | RedirectLogin          // window.location = '/login'
    | CommitLogout           // store.commit('authentication/logout')
    | PushChangePassword     // router.push('/change-password')
    | CommitSetUnauthorized  // store.commit('global/setUnauthorized')

  /** What the promise returned by the handler is rejected with. */
  datatype Reason = Original(error: HttpError) | Thrown(thrown: JsError)

  /** The effects performed, in order, and the rejection that follows them. */
  datatype Decision = Decision(effects: seq<Effect>, rejectedWith: Reason)

  const Unauthorized: int := 401
  const Forbidden: int := 403
  const LoginPath: string := "/login"

  /** The handler passed to `api.interceptors.response.use`. The two status
      checks are sequential in the source; at most one of them applies. */
  function OnResponseError(error: HttpError): (d: Decision)
    requires error.response.Some?
    ensures var r := error.response.value;
            r.status == Unauthorized && r.url != LoginPath ==>
              d == Decision([RedirectLogin, CommitLogout], Original(error))
    ensures var r := error.response.value;
            r.status == Unauthorized && r.url == LoginPath ==> d == Decision([], Original(error))
    ensures var r := error.response.value;
            r.status == Forbidden && IsPasswordExpired(r.data) == Returned(true) ==>
              d == Decision([PushChangePassword], Original(error))
    ensures var r := error.response.value;
            r.status == Forbidden && IsPasswordExpired(r.data) == Returned(false) ==>
              d == Decision([CommitSetUnauthorized], Original(error))
    ensures var r := error.response.value;
            r.status == Forbidden && IsPasswordExpired(r.data).Threw? ==> d == Decision([], Thrown(TypeError))
    ensures var r := error.response.value;
            r.status != Unauthorized && r.status != Forbidden ==> d == Decision([], Original(error))
  {
    var response := error.response.value;
    var afterUnauthorized :=
      if response.status == Unauthorized && response.url != LoginPath then [RedirectLogin, CommitLogout] else [];
    if response.status == Forbidden then
      match IsPasswordExpired(response.data)
      case Threw(e) => Decision(afterUnauthorized, Thrown(e))
      case Returned(expired) =>
        Decision(afterUnauthorized + [if expired then PushChangePassword else CommitSetUnauthorized], Original(error))
    else
      Decision(afterUnauthorized, Original(error))
  }

  /** The handler rejects with the unchanged original error, except when the
      password-expiry check on a 403 body throws. */
  lemma RejectsWithOriginalError(error: HttpError)
    requires error.response.Some?
    ensures var r := error.response.value;
            OnResponseError(error).rejectedWith == Original(error) <==>
              !(r.status == Forbidden && IsPasswordExpired(r.data).Threw?)
    ensures OnResponseError(error).rejectedWith.Thrown? ==> OnResponseError(error).effects == []
  {
  }

  /** When every message of the body carries a `MessageId`, the handler
      always rejects with the original error. */
  lemma IdentifiedMessagesRejectOriginal(error: HttpError)
    requires error.response.Some?
    requires var msgs := Messages(error.response.value.data);
             forall j :: 0 <= j < |msgs| ==> msgs[j].messageId.Some?
    ensures OnResponseError(error).rejectedWith == Original(error)
  {
    FindMessageIdTotalOnIdentifiedMessages(error.response.value.data, PasswordChangeRequired, None);
  }

  /** Each effect, in terms of the response alone: the login redirect and the
      logout commit happen together, exactly on a 401 outside the login
      request; the password-change navigation and the unauthorized commit
      happen on a 403 according to the expiry check, never both. */
  lemma EffectsByResponse(error: HttpError)
    requires error.response.Some?
    ensures var r, d := error.response.value, OnResponseError(error);
            (RedirectLogin in d.effects <==> r.status == Unauthorized && r.url != LoginPath)
            && (CommitLogout in d.effects <==> r.status == Unauthorized && r.url != LoginPath)
            && (PushChangePassword in d.effects <==> r.status == Forbidden && IsPasswordExpired(r.data) == Returned(true))
            && (CommitSetUnauthorized in d.effects <==> r.status == Forbidden && IsPasswordExpired(r.data) == Returned(false))
    ensures var d := OnResponseError(error);
            |d.effects| <= 2 && !(PushChangePassword in d.effects && CommitSetUnauthorized in d.effects)
  {
  }

  /** The 401 and 403 branches are exclusive: a handler run never mixes a
      login effect with a password-change or unauthorized effect. */
  lemma BranchesExclusive(error: HttpError)
    requires error.response.Some?
    ensures var d := OnResponseError(error);
            (RedirectLogin in d.effects || CommitLogout in d.effects) ==>
              PushChangePassword !in d.effects && CommitSetUnauthorized !in d.effects
  {
  }

  /** A 403 whose body carries `Base.<version>.PasswordChangeRequired` leads to
      the password-change page and no unauthorized commit. */
  lemma ForbiddenWithExpiredPassword(url: string, version: string, props: map<string, string>)
    ensures var body := Some(Body(Some([Message(Some("Base." + version + ".PasswordChangeRequired"), props)])));
            var error := HttpError(Some(Response(Forbidden, url, body)));
            OnResponseError(error) == Decision([PushChangePassword], Original(error))
  {
    PasswordExpiredExample(version, props);
  }

  /** A 403 whose body has no `@Message.ExtendedInfo` commits the
      unauthorized flag and does not navigate. */
  lemma ForbiddenWithoutMessages(url: string)
    ensures var error := HttpError(Some(Response(Forbidden, url, Some(Body(None)))));
            OnResponseError(error) == Decision([CommitSetUnauthorized], Original(error))
  {
  }
}
