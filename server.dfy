/**
 * The request handlers of the `Website` blueprint: the login form, the
 * session gate in front of the chat pages, the chat page for a given
 * conversation id, and the index page that issues a fresh conversation id.
 * The web framework is abstracted away: the session and the submitted form
 * are maps, and a handler's result is a `Response` value.
 */
module Server {
  import opened Wrappers
  import opened Hex
  import PyStr
  import Credentials

  /** The signed session cookie's key/value state. */
  type Session = map<string, string>

  /** The submitted form fields (the first value of each). */
  type Form = map<string, string>

  const UserIdKey: string := "user_id"
  const PasswordKey: string := "password"
  const FillInMessage: string := "Please fill in all the required fields."
  const InvalidMessage: string := "Invalid login details. Please try again."

  /**
   * The methods the login route accepts. The framework answers any other
   * before a handler runs, except HEAD, which it routes like GET and which
   * takes the same non-POST branch; `GET` stands for both.
   */
  datatype HttpMethod = GET | POST

  /** What a handler hands back to the framework. */
  datatype Response =
    | Redirect(location: string)                     // 302 to a fixed path
    | RedirectToIndex                                // 302 to the index route, wherever the blueprint is mounted
    | RenderLogin(error: Option<string>)             // the login page, with an inline error message or none
    | RenderChat(chatId: string, urlPrefix: string)  // the chat page for one conversation
    | BadRequest                                     // 400: a required form field is absent
    | ServerError                                    // 500: an exception escaped the handler

  /**
   * The session gate: without a `user_id` in the session the request is sent
   * to the login page and the view is not run; with one, the view's result is
   * passed through untouched.
   */
  function LoginRequired<A>(session: Session, view: A -> Response, args: A): (r: Response)
    ensures UserIdKey !in session ==> r == Redirect("/login")
    ensures UserIdKey in session ==> r == view(args)
  {
    if UserIdKey !in session then Redirect("/login") else view(args)
  }

  /** Without a session the gate's answer does not depend on the view or its arguments at all. */
  lemma GateNeverConsultsView<A>(session: Session, v1: A -> Response, a1: A, v2: A -> Response, a2: A)
    requires UserIdKey !in session
    ensures LoginRequired(session, v1, a1) == LoginRequired(session, v2, a2)
  {
  }

  /** Four byte strings drawn from the system's random source, in the order the index handler draws them. */
  type Bytes4 = s: seq<byte> | |s| == 4 witness [0, 0, 0, 0]
  type Bytes2 = s: seq<byte> | |s| == 2 witness [0, 0]
  datatype Draw = Draw(a: Bytes4, b: Bytes2, c: Bytes2, d: Bytes2)

  /**
   * The conversation id the index handler issues: the four random byte
   * strings in hex, then the millisecond clock reading `ms` as `hex` writes
   * it with its first two characters dropped, all joined by '-'.
   */
  function ConversationId(draw: Draw, ms: int): (id: string)
    ensures |id| > 8 && id[..8] == BytesHex(draw.a) && id[8] == '-'
    ensures '-' in id
  {
    BytesHex(draw.a) + "-" + BytesHex(draw.b) + "-" + BytesHex(draw.c) + "-" + BytesHex(draw.d)
      + "-" + PyHex(ms)[2..]
  }

  /** An id's five fields: 8, 4, 4 and 4 hex digits, then the clock in hex without leading zeros. */
  predicate WellFormedId(id: string)
  {
    var parts := PyStr.Split(id, '-');
    && |parts| == 5
    && |parts[0]| == 8 && |parts[1]| == 4 && |parts[2]| == 4 && |parts[3]| == 4
    && IsHex(parts[0]) && IsHex(parts[1]) && IsHex(parts[2]) && IsHex(parts[3])
    && IsHex(parts[4]) && parts[4] != [] && (parts[4][0] == '0' ==> |parts[4]| == 1)
  }

  /** Reads an id back into the random bytes and the clock reading it was built from. */
  function ParseConversationId(id: string): Option<(Draw, nat)>
  {
    var parts := PyStr.Split(id, '-');
    if !WellFormedId(id) then None
    else
      var a, b, c, d := ParseBytesHex(parts[0]), ParseBytesHex(parts[1]), ParseBytesHex(parts[2]), ParseBytesHex(parts[3]);
      if a.None? || b.None? || c.None? || d.None? then None
      else if |a.value| != 4 || |b.value| != 2 || |c.value| != 2 || |d.value| != 2 then None
      else Some((Draw(a.value, b.value, c.value, d.value), HexValue(parts[4])))
  }

  /** The fields of an id, for a clock reading at or after the epoch. */
  lemma ConversationIdFields(draw: Draw, ms: int)
    requires ms >= 0
    ensures PyStr.Split(ConversationId(draw, ms), '-')
              == [BytesHex(draw.a), BytesHex(draw.b), BytesHex(draw.c), BytesHex(draw.d), IntHex(ms)]
    ensures WellFormedId(ConversationId(draw, ms))
  {
    var fields := [BytesHex(draw.a), BytesHex(draw.b), BytesHex(draw.c), BytesHex(draw.d), IntHex(ms)];
    assert PyHex(ms)[2..] == IntHex(ms);
    forall i | 0 <= i < 5 ensures '-' !in fields[i] {
      HexHasNoHyphen(fields[i]);
    }
    JoinFive(fields, '-');
    PyStr.SplitJoin(fields, '-');
  }

  lemma HexHasNoHyphen(s: string)
    requires IsHex(s)
    ensures '-' !in s
  {
  }

  lemma JoinFive(f: seq<string>, sep: char)
    requires |f| == 5
    ensures PyStr.Join(f, sep) == f[0] + [sep] + f[1] + [sep] + f[2] + [sep] + f[3] + [sep] + f[4]
  {
    assert f[3..][1..] == f[4..] && f[2..][1..] == f[3..] && f[1..][1..] == f[2..];
    assert PyStr.Join(f[4..], sep) == f[4];
    assert PyStr.Join(f[3..], sep) == f[3] + [sep] + f[4];
    assert PyStr.Join(f[2..], sep) == f[2] + [sep] + (f[3] + [sep] + f[4]);
    assert PyStr.Join(f[1..], sep) == f[1] + [sep] + (f[2] + [sep] + (f[3] + [sep] + f[4]));
  }

  /** Every id issued at or after the epoch reads back to the bytes and clock reading it was built from. */
  lemma ConversationIdRoundTrip(draw: Draw, ms: int)
    requires ms >= 0
    ensures ParseConversationId(ConversationId(draw, ms)) == Some((draw, ms))
  {
    ConversationIdFields(draw, ms);
    BytesHexRoundTrip(draw.a);
    BytesHexRoundTrip(draw.b);
    BytesHexRoundTrip(draw.c);
    BytesHexRoundTrip(draw.d);
    IntHexRoundTrip(ms);
  }

  /** Two ids issued at or after the epoch differ unless both the random bytes and the clock readings agree. */
  lemma ConversationIdInjective(d1: Draw, ms1: int, d2: Draw, ms2: int)
    requires ms1 >= 0 && ms2 >= 0
    requires (d1, ms1) != (d2, ms2)
    ensures ConversationId(d1, ms1) != ConversationId(d2, ms2)
  {
    ConversationIdRoundTrip(d1, ms1);
    ConversationIdRoundTrip(d2, ms2);
  }

  /** Whether the login form is missing a field the login handler needs to be non-empty. */
  predicate FieldsMissing(form: Form)
    requires UserIdKey in form
  {
    form[UserIdKey] == "" || PasswordKey !in form || form[PasswordKey] == ""
  }

  /** The state of one `Website` instance the handlers read: the URL prefix passed to the chat page. */
  datatype Website = Website(urlPrefix: string) {

    /**
     * The login handler. A GET shows the form. A POST without a `user_id`
     * field is a bad request; one with an empty user id or an empty or absent
     * password shows the form with the "fill in" message, before the
     * credential store is read; then the store is consulted, and a refused
     * pair shows the form with the "invalid" message. Only an accepted pair
     * changes the session, by binding `user_id`, and redirects to `/`.
     */
    method Login(httpMethod: HttpMethod, form: Form, file: Credentials.FileResult, session: Session)
      returns (response: Response, session': Session)
      ensures httpMethod == GET ==> response == RenderLogin(None) && session' == session
      ensures httpMethod == POST && UserIdKey !in form ==> response == BadRequest && session' == session
      ensures httpMethod == POST && UserIdKey in form && FieldsMissing(form) ==>
                response == RenderLogin(Some(FillInMessage)) && session' == session
      ensures httpMethod == POST && UserIdKey in form && !FieldsMissing(form) ==>
                var verdict := Credentials.Authenticate(file, form[UserIdKey], form[PasswordKey]);
                && (verdict.Failure? ==> response == ServerError && session' == session)
                && (verdict == Success(false) ==> response == RenderLogin(Some(InvalidMessage)) && session' == session)
                && (verdict == Success(true) ==> response == Redirect("/") && session' == session[UserIdKey := form[UserIdKey]])
      ensures response == Redirect("/") <==>
                && httpMethod == POST && UserIdKey in form && !FieldsMissing(form)
                && Credentials.Authenticate(file, form[UserIdKey], form[PasswordKey]) == Success(true)
      ensures response != Redirect("/") ==> session' == session
    {
      if httpMethod != POST {
        return RenderLogin(None), session;
      }
      if UserIdKey !in form {
        return BadRequest, session;
      }
      var userId := form[UserIdKey];
      var password: Option<string> := if PasswordKey in form then Some(form[PasswordKey]) else None;
      if userId == "" || password.None? || password.value == "" {
        return RenderLogin(Some(FillInMessage)), session;
      }
      var verdict := Credentials.Authenticate(file, userId, password.value);
      if verdict.Failure? {
        return ServerError, session;
      }
      if !verdict.value {
        return RenderLogin(Some(InvalidMessage)), session;
      }
      session' := session[UserIdKey := userId];
      // the per-user login record in `log/<user_id>.log` is not part of this model
      response := Redirect("/");
    }

    /** The chat handler: an id without '-' goes back to the index route; any other is shown verbatim. */
    function Chat(conversationId: string): (r: Response)
      ensures r == RedirectToIndex <==> '-' !in conversationId
      ensures r == RenderChat(conversationId, urlPrefix) <==> '-' in conversationId
    {
      if '-' !in conversationId then RedirectToIndex else RenderChat(conversationId, urlPrefix)
    }

    /** The index handler: the chat page for a freshly issued conversation id. */
    function Index(draw: Draw, ms: int): (r: Response)
      ensures r.RenderChat? && r.urlPrefix == urlPrefix && '-' in r.chatId
      ensures ms >= 0 ==> WellFormedId(r.chatId) && ParseConversationId(r.chatId) == Some((draw, ms))
    {
      var id := ConversationId(draw, ms);
      if ms < 0 then RenderChat(id, urlPrefix)
      else
        ConversationIdRoundTrip(draw, ms);
        ConversationIdFields(draw, ms);
        RenderChat(id, urlPrefix)
    }

    /** The `/chat/<conversation_id>` route: the chat handler behind the session gate. */
    function ChatRoute(session: Session, conversationId: string): (r: Response)
      ensures UserIdKey !in session ==> r == Redirect("/login")
      ensures UserIdKey in session ==> r == Chat(conversationId)
    {
      LoginRequired(session, (id: string) => Chat(id), conversationId)
    }

    /** The `/chat/` route: the index handler behind the session gate. */
    function IndexRoute(session: Session, draw: Draw, ms: int): (r: Response)
      ensures UserIdKey !in session ==> r == Redirect("/login")
      ensures UserIdKey in session ==> r == Index(draw, ms)
    {
      LoginRequired(session, (args: (Draw, int)) => Index(args.0, args.1), (draw, ms))
    }

    /** No chat page, for a given or a fresh id, is served to a session without a `user_id`. */
    lemma GatedRoutesNeedSession(session: Session, conversationId: string, draw: Draw, ms: int)
      ensures ChatRoute(session, conversationId).RenderChat? ==> UserIdKey in session
      ensures IndexRoute(session, draw, ms).RenderChat? ==> UserIdKey in session
      ensures UserIdKey !in session ==>
                ChatRoute(session, conversationId) == IndexRoute(session, draw, ms) == Redirect("/login")
    {
    }

    /** Every id the index route issues is accepted by the chat route and shown exactly as issued. */
    lemma IssuedIdIsAccepted(session: Session, draw: Draw, ms: int)
      requires UserIdKey in session
      ensures var r := IndexRoute(session, draw, ms);
        r.RenderChat? && ChatRoute(session, r.chatId) == r
    {
    }
  }
}
