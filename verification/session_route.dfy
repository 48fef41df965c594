/**
 * The `/api/session` route: GET reads the cookie session back, POST makes
 * sure the session has a username and that a user with that name exists.
 * The user table is abstracted to the set of stored usernames; the
 * generated username is an input, and creating a user inserts its name.
 */
module SessionRoute {
  import opened JsValues

  /** The cookie-backed session record. */
  datatype Session = Session(username: Option<JsString>, channelRef: Option<JsString>)

  /**
   * A route's outcome: a JSON response with a status and an optional
   * session body (`null` when absent), or an exception that escapes the
   * handler.
   */
  datatype Response = Respond(status: int, body: Option<Session>) | Throws

  /** `prisma.user.findUnique({ where: { username } })` finds a row. */
  predicate UserExists(users: set<JsString>, username: Option<JsString>)
  {
    username.Some? && username.value in users
  }

  /**
   * GET as written: the store lookup reads `session.username` before the
   * `!session` check, so a missing session throws there and the 401
   * branch is never reached.
   */
  function Get(session: Option<Session>, users: set<JsString>): (r: Response)
    ensures session.None? <==> r.Throws?
    ensures r.Respond? ==> r.status != 401
    ensures r.Respond? ==> (r.status == 200 <==> UserExists(users, session.value.username))
    ensures r.Respond? && r.status == 200 ==> r.body == session
    ensures r.Respond? && r.status != 200 ==> r == Respond(404, None)
  {
    match session
    case None => Throws
    case Some(s) =>
      if !UserExists(users, s.username) then Respond(404, None)
      else Respond(200, Some(s))
  }

  /** GET with the evidently intended order: a missing session answers 401. */
  function GetChecked(session: Option<Session>, users: set<JsString>): (r: Response)
    ensures r.Respond?
    ensures session.None? <==> r.status == 401
    ensures session.Some? ==> (r.status == 200 <==> UserExists(users, session.value.username))
    ensures r.status == 200 ==> r.body == session
    ensures r.status != 200 ==> r.body.None?
  {
    match session
    case None => Respond(401, None)
    case Some(s) =>
      if !UserExists(users, s.username) then Respond(404, None)
      else Respond(200, Some(s))
  }

  /** Without a session the handler as written throws where a 401 answer is intended. */
  lemma GetMissingSessionThrows(users: set<JsString>)
    ensures Get(None, users) == Throws
    ensures GetChecked(None, users) == Respond(401, None)
  {
  }

  /** With a session present, the handler as written and the intended one agree. */
  lemma GetAgreesWithChecked(session: Session, users: set<JsString>)
    ensures Get(Some(session), users) == GetChecked(Some(session), users)
  {
  }

  /** What POST leaves behind: its response, the saved session, and the user store. */
  datatype PostResult = PostResult(response: Response, session: Session, users: set<JsString>)

  /**
   * POST: a falsy username is replaced by the generated one; the user
   * with the session's username is created if the lookup finds none;
   * the session is saved and returned.
   */
  function Post(session: Session, users: set<JsString>, generated: JsString): (r: PostResult)
    ensures Truthy(session.username) ==> r.session == session
    ensures !Truthy(session.username) ==> r.session == session.(username := Some(generated))
    ensures r.session.channelRef == session.channelRef
    ensures UserExists(r.users, r.session.username)
    ensures r.users == users + {r.session.username.value}
    ensures UserExists(users, r.session.username) ==> r.users == users
    ensures r.response == Respond(200, Some(r.session))
  {
    var s := if Truthy(session.username) then session else session.(username := Some(generated));
    var name := s.username.value;
    var created := if !UserExists(users, s.username) then users + {name} else users;
    PostResult(Respond(200, Some(s)), s, created)
  }

  /**
   * POST is idempotent: once it has assigned a non-empty username, a
   * second POST keeps the session, the store and the response, whatever
   * name the generator would offer.
   */
  lemma PostIdempotent(session: Session, users: set<JsString>, generated: JsString, again: JsString)
    requires Truthy(session.username) || |generated| > 0
    ensures var first := Post(session, users, generated);
      Post(first.session, first.users, again) == first
  {
  }

  /** After POST, reading the session back answers 200 with the saved session, as written and corrected. */
  lemma PostThenGet(session: Session, users: set<JsString>, generated: JsString)
    ensures var r := Post(session, users, generated);
      Get(Some(r.session), r.users) == Respond(200, Some(r.session))
    ensures var r := Post(session, users, generated);
      GetChecked(Some(r.session), r.users) == Respond(200, Some(r.session))
  {
  }

  /**
   * When the generator yields the empty string, the session keeps a falsy
   * username, so a second POST asks the generator again.
   */
  lemma PostEmptyGeneratedNotSettled(session: Session, users: set<JsString>, again: JsString)
    requires !Truthy(session.username)
    ensures var first := Post(session, users, []);
      Post(first.session, first.users, again).session.username == Some(again)
  {
  }
}
