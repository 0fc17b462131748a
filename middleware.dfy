/**
 * The authentication middleware `validateToken` of the Express app: it takes the
 * bearer token from the `Authorization` header, has Firebase verify it, works out
 * the caller's admin flag from the `admins` collection, attaches the caller's
 * `players` document (creating it on first sign-in) and then calls `next()`;
 * any failure on the way ends the request with a 400 "Authentication failed." reply.
 */
module Middleware {
  import opened Wrappers
  import opened JsSemantics
  import opened Store

  /** The separator that `authorization.split(...)` is given. */
  const BEARER_SEPARATOR: string := "Bearer "
  /** The status and message of every failure reply. */
  const AUTH_FAILED_STATUS: int := 400
  const AUTH_FAILED_MESSAGE: string := "Authentication failed."

  /**
   * What `admin.auth().verifyIdToken` yields for a valid token, as far as the
   * middleware reads it; `isSuperAdmin` is a custom claim and may be any value.
   */
  datatype DecodedToken = DecodedToken(
    uid: string,
    email: Option<string>,
    name: Option<string>,
    emailVerified: Option<bool>,
    picture: Option<string>,
    isSuperAdmin: JsValue
  )

  /**
   * `req.user`: the decoded token, its `isSuperAdmin` field as the middleware
   * has rewritten it, and `playerData` once attached (`None` while unset).
   */
  datatype User = User(token: DecodedToken, isSuperAdmin: JsValue, playerData: Option<PlayerDoc>)

  /** The store calls of one request, each of which may reject. */
  datatype StoreCall = ReadAdmin | ReadPlayer | WritePlayer | RereadPlayer

  /** What was thrown inside the `try` block. */
  datatype AuthError =
    | NoTokenProvided          // `new Error("No token provided")`
    | TokenRejected            // `verifyIdToken` rejected the token
    | UndefinedValueRefused    // `set` refused a document with an `undefined` field
    | StoreFailed(call: StoreCall)

  /** How the middleware ends: it calls `next()` with `req.user` set, or it replies itself. */
  datatype Outcome =
    | Next(user: User)
    | Respond(status: int, message: string, error: AuthError)

  /** The reply of the `catch` block. */
  function Fail(error: AuthError): (o: Outcome)
    ensures o.Respond? && o.status == 400 && o.message == "Authentication failed." && o.error == error
  {
    Respond(AUTH_FAILED_STATUS, AUTH_FAILED_MESSAGE, error)
  }

  /** The incoming request: its `Authorization` header and the `user` field the middleware sets. */
  class Request {
    const authorization: Option<string>
    var user: Option<User>

    constructor (authorization: Option<string>)
      ensures this.authorization == authorization && user == None
    {
      this.authorization := authorization;
      user := None;
    }
  }

  /**
   * `token?.split("Bearer ")[1]`, kept only when truthy: the second piece of the
   * header split at "Bearer ", unless the header is missing, has no second piece,
   * or that piece is empty.
   */
  function ExtractToken(authorization: Option<string>): (token: Option<string>)
    ensures token.Some? ==> token.value != "" && !Contains(token.value, BEARER_SEPARATOR)
    ensures authorization.None? ==> token.None?
  {
    match authorization
    case None => None
    case Some(header) =>
      var parts := Split(header, BEARER_SEPARATOR);
      if 2 <= |parts| && parts[1] != "" then
        SplitPiecesFree(header, BEARER_SEPARATOR, 1);
        Some(parts[1])
      else None
  }

  /**
   * The value of `req.user.isSuperAdmin` after the admin lookup (src/index.ts:77-84):
   * true when the admin document's own flag is truthy, false when there is no admin
   * document, and the token's claim otherwise.
   */
  function AdminFlag(claim: JsValue, adminDoc: Option<AdminDoc>): (flag: JsValue)
    ensures flag.Truthy() <==> adminDoc.Some? && (adminDoc.value.isSuperAdmin.Truthy() || claim.Truthy())
    ensures adminDoc.None? ==> flag == Bool(false)
    ensures adminDoc.Some? && adminDoc.value.isSuperAdmin.Truthy() ==> flag == Bool(true)
    ensures adminDoc.Some? && !adminDoc.value.isSuperAdmin.Truthy() ==> flag == claim
  {
    match adminDoc
    case None => Bool(false)
    case Some(doc) => if doc.isSuperAdmin.Truthy() then Bool(true) else claim
  }

  /** The profile written for a first-time caller (src/index.ts:91-98). */
  function NewPlayerDoc(user: User): (doc: PlayerDoc)
    ensures doc.uid == user.token.uid && doc.email == user.token.email
    ensures doc.name == user.token.name && doc.picture == user.token.picture
    ensures doc.emailVerified <==> user.token.emailVerified == Some(true)
    ensures doc.isSuperAdmin.Truthy() <==> user.isSuperAdmin.Truthy()
    ensures !user.isSuperAdmin.Truthy() ==> doc.isSuperAdmin == Bool(false)
    ensures user.isSuperAdmin.Truthy() ==> doc.isSuperAdmin == user.isSuperAdmin
  {
    var emailVerified := match user.token.emailVerified case Some(b) => b case None => false;
    PlayerDoc(
      user.token.uid,
      user.token.email,
      user.token.name,
      emailVerified,
      user.token.picture,
      Or(user.isSuperAdmin, Bool(false)))
  }

  /** The observable effect of one call: how it ends, `req.user`, and the `players` collection. */
  datatype Step = Step(outcome: Outcome, user: Option<User>, players: map<string, PlayerDoc>)

  /**
   * One call of the middleware on a request whose header is `authorization` and whose
   * `user` field is `user0`, against the collections `admins` and `players` of a store
   * whose `ignoreUndefinedProperties` setting is `ignoreUndefined`, with `verifier`
   * standing for `verifyIdToken` (defined exactly on the tokens it accepts) and
   * `fault` naming the store call that rejects on this request, if one does.
   */
  function Validate(
    authorization: Option<string>,
    user0: Option<User>,
    admins: map<string, AdminDoc>,
    players: map<string, PlayerDoc>,
    ignoreUndefined: bool,
    verifier: map<string, DecodedToken>,
    fault: Option<StoreCall>
  ): Step
  {
    match ExtractToken(authorization)
    case None => Step(Fail(NoTokenProvided), user0, players)
    case Some(token) =>
      if token !in verifier then Step(Fail(TokenRejected), user0, players)
      else if fault == Some(ReadAdmin) then Step(Fail(StoreFailed(ReadAdmin)), user0, players)
      else
        var decoded := verifier[token];
        var uid := decoded.uid;
        var user := User(decoded, AdminFlag(decoded.isSuperAdmin, Lookup(admins, uid)), None);
        if fault == Some(ReadPlayer) then Step(Fail(StoreFailed(ReadPlayer)), Some(user), players)
        else match Lookup(players, uid)
          case Some(existing) =>
            var attached := user.(playerData := Some(existing));
            Step(Next(attached), Some(attached), players)
          case None =>
            var doc := NewPlayerDoc(user);
            if !Accepts(ignoreUndefined, doc) then Step(Fail(UndefinedValueRefused), Some(user), players)
            else if fault == Some(WritePlayer) then Step(Fail(StoreFailed(WritePlayer)), Some(user), players)
            else
              var written := players[uid := doc];
              if fault == Some(RereadPlayer) then Step(Fail(StoreFailed(RereadPlayer)), Some(user), written)
              else
                var attached := user.(playerData := Lookup(written, uid));
                Step(Next(attached), Some(attached), written)
  }

  /**
   * `validateToken(req, res, next)`. It updates `req.user` step by step and writes
   * into `players` in place; `admins` is only read.
   */
  method ValidateToken(req: Request, db: Firestore, verifier: map<string, DecodedToken>, fault: Option<StoreCall>)
    returns (outcome: Outcome)
    modifies req`user, db`players
    ensures db.admins == old(db.admins)
    ensures var s := Validate(req.authorization, old(req.user), old(db.admins), old(db.players),
                              db.ignoreUndefinedProperties, verifier, fault);
      outcome == s.outcome && req.user == s.user && db.players == s.players
  {
    var token := ExtractToken(req.authorization);
    if token.None? {
      return Fail(NoTokenProvided);
    }
    if token.value !in verifier {
      return Fail(TokenRejected);
    }
    var decodedToken := verifier[token.value];
    if fault == Some(ReadAdmin) {
      return Fail(StoreFailed(ReadAdmin));
    }
    var adminDoc := db.GetAdmin(decodedToken.uid);
    req.user := Some(User(decodedToken, decodedToken.isSuperAdmin, None));

    if adminDoc.Some? {
      if adminDoc.value.isSuperAdmin.Truthy() {
        req.user := Some(req.user.value.(isSuperAdmin := Bool(true)));
      }
    } else {
      req.user := Some(req.user.value.(isSuperAdmin := Bool(false)));
    }

    if fault == Some(ReadPlayer) {
      return Fail(StoreFailed(ReadPlayer));
    }
    var playerData := GetPlayerData(db, decodedToken.uid);
    if playerData.Some? {
      req.user := Some(req.user.value.(playerData := playerData));
    } else {
      var written := db.SetPlayer(decodedToken.uid, NewPlayerDoc(req.user.value), fault == Some(WritePlayer));
      if written == RefusedUndefined {
        return Fail(UndefinedValueRefused);
      } else if written == ServerRejected {
        return Fail(StoreFailed(WritePlayer));
      }
      if fault == Some(RereadPlayer) {
        return Fail(StoreFailed(RereadPlayer));
      }
      req.user := Some(req.user.value.(playerData := GetPlayerData(db, decodedToken.uid)));
    }
    return Next(req.user.value);
  }
}
