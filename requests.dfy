/**
 * The HTTP handlers of requests/requests.go: register, authenticate and the
 * restricted resource, with token issuance and the cross-origin pre-check.
 *
 * A request is reduced to its method and its already decoded JSON body (or
 * the decoder's error text); a response to the status code and the JSON
 * payload written, or `NoResponse` when the handler writes neither. The
 * clock is the parameter `now`, in Unix seconds.
 */
module Requests {
  import opened Wrappers
  import opened Data
  import opened Jwt

  /** Lifetime of an issued token: 20 minutes, in seconds. */
  const ExpireTime: int := 20 * 60

  /** The HMAC key every token is signed and checked with. */
  const SignKey: string := "1deadbeaf"

  const StatusOK: int := 200
  const StatusCreated: int := 201
  const StatusBadRequest: int := 400
  const StatusUnauthorized: int := 401
  const StatusForbidden: int := 403
  const StatusConflict: int := 409
  const StatusInternalServerError: int := 500

  const InvalidLoginMsg: string := "Username or Password is not valid"
  const UserExistsMsg: string := "user already exists"
  const CreateFailedMsg: string := "Error: could not create user"
  const RegistrationLoginMsg: string := "Error: with registration, try again"
  const TokenCreationMsg: string := "Error creating token"
  const TokenNotValidMsg: string := "Token not valid"
  const TokenExpiredMsg: string := "Token Expired, get a new one."
  const TokenErrorMsg: string := "Error parsing token!"
  const TokenParseErrorMsg: string := "Token parse error"

  /** The JSON body of an authenticate or register request. */
  datatype AuthRequest = AuthRequest(user: string, password: string)

  /** The JSON body of a restricted-area request. */
  datatype JotToken = JotToken(token: string)

  /** A request body after JSON decoding. */
  datatype Body<T> = Decoded(value: T) | Undecodable(reason: string)

  /** `JotToken` and `ErrorResponse`, the two payloads a handler writes. */
  datatype Payload = TokenBody(token: string) | ErrorBody(msg: string)

  datatype Response = NoResponse | Response(status: int, payload: Payload)

  // ---------------------------------------------------------------------
  // Tokens

  /**
   * The claims `newAuthToken` puts in a token: the user as `id` and an
   * expiry 20 minutes after `now`, with no not-before time.
   */
  function IssuedClaims(username: string, now: int): (c: Claims)
    ensures c.id == Some(username)
    ensures c.exp == Some(now + 1200)
    ensures c.nbf.None?
  {
    Claims(Some(username), Some(now + ExpireTime), None)
  }

  /**
   * `newAuthToken`: an HS256 token for `username` that expires 20 minutes
   * after `now`. With sound encodings it always succeeds and is at least 32
   * characters long.
   */
  function NewAuthToken(codec: Codec, username: string, now: int): (r: Result<string, string>)
    ensures Sound(codec) ==> r.Ok? && |r.value| >= 32
  {
    SignedString(codec, IssuedClaims(username, now), SignKey)
  }

  /**
   * An issued token parses back to the claims id = username and
   * exp = now + 1200; until then it is valid, afterwards the only error is
   * expiry.
   */
  lemma IssuedTokenClaims(codec: Codec, username: string, issued: int, now: int)
    requires Sound(codec)
    ensures NewAuthToken(codec, username, issued).Ok?
    ensures Parse(codec, NewAuthToken(codec, username, issued).value, SignKey, now)
            == if now <= issued + ExpireTime
               then Parsed(Claims(Some(username), Some(issued + 1200), None), true)
               else ValidationError({Expired})
  {
    var claims := IssuedClaims(username, issued);
    ParseSignedString(codec, claims, SignKey, now);
    if now > issued + ExpireTime {
      assert TimeFlags(claims, now) == {Expired};
    } else {
      assert TimeFlags(claims, now) == {};
    }
  }

  // ---------------------------------------------------------------------
  // Shared steps of the handlers

  /** `allowCrossOrigin`: false exactly for a pre-flight OPTIONS request. */
  function AllowCrossOrigin(verb: string): (allow: bool)
    ensures !allow <==> verb == "OPTIONS"
  {
    verb != "OPTIONS"
  }

  /**
   * The 400 message AuthHandler builds for a method other than POST, as
   * written: the format has no verb, so Go's fmt appends the method as an
   * EXTRA operand instead of naming it in the sentence.
   */
  function BadMethodReasonAsWritten(verb: string): string
  {
    "ERROR: expected a POST but recieved " + "%!(EXTRA string=" + verb + ")"
  }

  /** The message a GET receives, as written, and how it differs from the intended one. */
  lemma BadMethodReasonAsWrittenOnGet()
    ensures BadMethodReasonAsWritten("GET") == "ERROR: expected a POST but recieved %!(EXTRA string=GET)"
    ensures BadMethodReasonAsWritten("GET") != BadMethodReason("GET")
  {
  }

  /** As written, the message never ends with a method that does not end in ')'. */
  lemma BadMethodReasonAsWrittenMisplacesMethod(verb: string)
    requires |verb| > 0 && verb[|verb| - 1] != ')'
    ensures var r := BadMethodReasonAsWritten(verb);
            |r| >= |verb| && r[|r| - |verb|..] != verb
  {
  }

  /** The message as evidently intended: the sentence ends with the method received. */
  function BadMethodReason(verb: string): (r: string)
    ensures |r| >= |verb| && r[|r| - |verb|..] == verb
  {
    "ERROR: expected a POST but recieved " + verb
  }

  // ---------------------------------------------------------------------
  // Authenticate

  /**
   * `AuthHandler`: answers 200 with a fresh token only to a POST whose body
   * names a user and the password stored for that user; it reads the table
   * and never changes it. A method other than POST gets 400 with the message
   * as written (see `BadMethodReasonAsWritten`).
   */
  function AuthHandler(sha: Sha256, codec: Codec, users: seq<Row>, verb: string,
                       body: Body<AuthRequest>, now: int): (resp: Response)
    ensures resp.NoResponse? <==> verb == "OPTIONS"
    ensures verb != "OPTIONS" && verb != "POST" ==>
              resp == Response(StatusBadRequest, ErrorBody(BadMethodReasonAsWritten(verb)))
    ensures verb == "POST" && body.Undecodable? ==>
              resp == Response(StatusBadRequest, ErrorBody("Error: request was not parsable " + body.reason))
    ensures resp.Response? && resp.status == StatusOK ==>
              && verb == "POST" && body.Decoded?
              && HasCredential(users, body.value.user, GetHash(sha, body.value.password))
              && NewAuthToken(codec, body.value.user, now).Ok?
              && resp.payload == TokenBody(NewAuthToken(codec, body.value.user, now).value)
  {
    if !AllowCrossOrigin(verb) then NoResponse
    else if verb != "POST" then Response(StatusBadRequest, ErrorBody(BadMethodReasonAsWritten(verb)))
    else
      match body
      case Undecodable(err) =>
        Response(StatusBadRequest, ErrorBody("Error: request was not parsable " + err))
      case Decoded(msg) =>
        if IsValidLogin(sha, users, msg.user, msg.password) == -1 then
          Response(StatusForbidden, ErrorBody(InvalidLoginMsg))
        else
          match NewAuthToken(codec, msg.user, now)
          case Err(err) => Response(StatusInternalServerError, ErrorBody("Error with token signing:" + err))
          case Ok(token) => Response(StatusOK, TokenBody(token))
  }

  /**
   * On a table built by CreateUser, a POST with decodable credentials gets
   * 200 and a token exactly when some row holds that name and password
   * digest, and 403 otherwise; an unknown name and a wrong password get the
   * same 403 answer.
   */
  lemma AuthenticateOutcome(sha: Sha256, codec: Codec, users: seq<Row>, user: string, pw: string, now: int)
    requires TableInvariant(users)
    requires Sound(codec)
    ensures AuthHandler(sha, codec, users, "POST", Decoded(AuthRequest(user, pw)), now)
            == if HasCredential(users, user, GetHash(sha, pw))
               then Response(StatusOK, TokenBody(NewAuthToken(codec, user, now).value))
               else Response(StatusForbidden, ErrorBody(InvalidLoginMsg))
  {
  }

  /**
   * Registration followed by authentication: once CreateUser has appended
   * the row for (user, pw), authenticating with the same credentials gets
   * 200 and a token for that user.
   */
  lemma AuthenticateAfterRegister(sha: Sha256, codec: Codec, users: seq<Row>, user: string, pw: string, now: int)
    requires TableInvariant(users)
    requires !HasName(users, user)
    requires Sound(codec)
    ensures AuthHandler(sha, codec, users + [Row(NextId(users), user, GetHash(sha, pw))], "POST",
                        Decoded(AuthRequest(user, pw)), now)
            == Response(StatusOK, TokenBody(NewAuthToken(codec, user, now).value))
  {
    LoginAfterInsert(sha, users, user, pw);
  }

  // ---------------------------------------------------------------------
  // Restricted area

  /**
   * The status and message RestrictedHandler chooses for the outcome of
   * parsing `token`: 200 echoing the token only for a parsed, valid token;
   * 401 for an invalid parsed token or an error whose only flag is expiry;
   * 500 for every other error.
   */
  function AccessResponse(outcome: Outcome, token: string): (resp: Response)
    ensures resp.Response?
    ensures resp.status == StatusOK <==> outcome.Parsed? && outcome.valid
    ensures resp.status == StatusOK ==> resp.payload == TokenBody(token)
    ensures outcome.ValidationError? && outcome.errors == {Expired} ==>
              resp == Response(StatusUnauthorized, ErrorBody(TokenExpiredMsg))
    ensures outcome.ValidationError? && outcome.errors != {Expired} ==>
              resp == Response(StatusInternalServerError, ErrorBody(TokenErrorMsg))
    ensures outcome.OtherError? ==> resp.status == StatusInternalServerError
  {
    match outcome
    case Parsed(_, valid) =>
      if !valid then Response(StatusUnauthorized, ErrorBody(TokenNotValidMsg))
      else Response(StatusOK, TokenBody(token))
    case ValidationError(errors) =>
      if errors == {Expired} then Response(StatusUnauthorized, ErrorBody(TokenExpiredMsg))
      else Response(StatusInternalServerError, ErrorBody(TokenErrorMsg))
    case OtherError =>
      Response(StatusInternalServerError, ErrorBody(TokenParseErrorMsg))
  }

  /**
   * `RestrictedHandler`: grants access (200, echoing the token) only to a
   * POST whose token parses under the signing key with no error. It never
   * looks at the users table.
   */
  function RestrictedHandler(codec: Codec, verb: string, body: Body<JotToken>, now: int): (resp: Response)
    ensures resp.NoResponse? <==> verb == "OPTIONS"
    ensures verb != "OPTIONS" && verb != "POST" ==>
              resp == Response(StatusBadRequest, ErrorBody("Expected post"))
    ensures verb == "POST" && body.Undecodable? ==>
              resp == Response(StatusBadRequest, ErrorBody("Error: expected a better request " + body.reason))
    ensures verb == "POST" && body.Decoded? ==>
              resp == AccessResponse(Parse(codec, body.value.token, SignKey, now), body.value.token)
    ensures resp.Response? && resp.status == StatusOK ==>
              && verb == "POST" && body.Decoded?
              && Parse(codec, body.value.token, SignKey, now).Parsed?
              && resp.payload == TokenBody(body.value.token)
  {
    if !AllowCrossOrigin(verb) then NoResponse
    else if verb != "POST" then Response(StatusBadRequest, ErrorBody("Expected post"))
    else
      match body
      case Undecodable(err) =>
        Response(StatusBadRequest, ErrorBody("Error: expected a better request " + err))
      case Decoded(req) =>
        AccessResponse(Parse(codec, req.token, SignKey, now), req.token)
  }

  /** A token issued at `issued` opens the restricted area until it expires. */
  lemma IssuedTokenGrantsAccess(codec: Codec, username: string, issued: int, now: int)
    requires Sound(codec)
    requires now <= issued + ExpireTime
    ensures NewAuthToken(codec, username, issued).Ok?
    ensures var token := NewAuthToken(codec, username, issued).value;
            RestrictedHandler(codec, "POST", Decoded(JotToken(token)), now)
            == Response(StatusOK, TokenBody(token))
  {
    IssuedTokenClaims(codec, username, issued, now);
  }

  /** After its 20 minutes the same token gets 401 "Token Expired, get a new one.". */
  lemma IssuedTokenExpires(codec: Codec, username: string, issued: int, now: int)
    requires Sound(codec)
    requires now > issued + ExpireTime
    ensures NewAuthToken(codec, username, issued).Ok?
    ensures RestrictedHandler(codec, "POST", Decoded(JotToken(NewAuthToken(codec, username, issued).value)), now)
            == Response(StatusUnauthorized, ErrorBody(TokenExpiredMsg))
  {
    IssuedTokenClaims(codec, username, issued, now);
  }

  /**
   * An issued token whose signature segment is replaced gets 500 "Error
   * parsing token!" at any time: never access, and never the expiry answer.
   */
  lemma ForgedTokenRefused(codec: Codec, username: string, issued: int, forged: string, now: int)
    requires Sound(codec)
    requires Some(forged) != codec.sign("HS256", SigningInput(codec, IssuedClaims(username, issued)), SignKey)
    ensures RestrictedHandler(codec, "POST",
              Decoded(JotToken(SigningInput(codec, IssuedClaims(username, issued)) + "." + forged)), now)
            == Response(StatusInternalServerError, ErrorBody(TokenErrorMsg))
  {
    ParseForgedSignature(codec, IssuedClaims(username, issued), SignKey, forged, now);
  }

  // ---------------------------------------------------------------------
  // Register

  /** A POST whose body decoded to credentials. */
  predicate IsCredentialPost(verb: string, body: Body<AuthRequest>)
  {
    verb == "POST" && body.Decoded?
  }

  /**
   * `RegisterHandler`: refuses a taken name with 409 and leaves the table
   * alone; otherwise creates the user (500 when the insert fails), logs in
   * with the new credentials and answers 201 with a token. The table changes
   * only on the path that creates the user, by exactly that user's row.
   */
  method RegisterHandler(db: Database, sha: Sha256, codec: Codec, verb: string,
                         body: Body<AuthRequest>, now: int, execErr: bool) returns (resp: Response)
    requires db.Valid()
    modifies db
    ensures db.Valid()
    ensures resp.NoResponse? <==> verb == "OPTIONS"
    ensures verb != "OPTIONS" && verb != "POST" ==>
              resp == Response(StatusBadRequest, ErrorBody("Expected http POST"))
    ensures verb == "POST" && body.Undecodable? ==>
              resp == Response(StatusBadRequest, ErrorBody("Error parsing request: " + body.reason))
    ensures IsCredentialPost(verb, body) && HasName(old(db.users), body.value.user) ==>
              resp == Response(StatusConflict, ErrorBody(UserExistsMsg))
    ensures IsCredentialPost(verb, body) && !HasName(old(db.users), body.value.user) && execErr ==>
              resp == Response(StatusInternalServerError, ErrorBody(CreateFailedMsg))
    ensures IsCredentialPost(verb, body) && !HasName(old(db.users), body.value.user) && !execErr ==>
              && db.users == old(db.users) + [Row(NextId(old(db.users)), body.value.user,
                                                  GetHash(sha, body.value.password))]
              && resp == match NewAuthToken(codec, body.value.user, now)
                         case Ok(token) => Response(StatusCreated, TokenBody(token))
                         case Err(_) => Response(StatusInternalServerError, ErrorBody(TokenCreationMsg))
    ensures !(IsCredentialPost(verb, body) && !HasName(old(db.users), body.value.user) && !execErr) ==>
              db.users == old(db.users)
  {
    if !AllowCrossOrigin(verb) {
      return NoResponse;
    }
    if verb != "POST" {
      return Response(StatusBadRequest, ErrorBody("Expected http POST"));
    }
    if body.Undecodable? {
      return Response(StatusBadRequest, ErrorBody("Error parsing request: " + body.reason));
    }
    var registration := body.value;
    if IsRegisteredUser(db.users, registration.user) != -1 {
      return Response(StatusConflict, ErrorBody(UserExistsMsg));
    }
    ghost var before := db.users;
    var created := db.CreateUser(sha, registration.user, registration.password, execErr);
    if !created {
      return Response(StatusInternalServerError, ErrorBody(CreateFailedMsg));
    }
    LoginAfterInsert(sha, before, registration.user, registration.password);
    var userId := IsValidLogin(sha, db.users, registration.user, registration.password);
    if userId == -1 {
      return Response(StatusInternalServerError, ErrorBody(RegistrationLoginMsg));
    }
    var newToken := NewAuthToken(codec, registration.user, now);
    if newToken.Err? {
      return Response(StatusInternalServerError, ErrorBody(TokenCreationMsg));
    }
    resp := Response(StatusCreated, TokenBody(newToken.value));
  }

  /**
   * The round trip the handler tests exercise on a fresh table: register
   * ("ersin", "daedbeef") gets 201 and a token of at least 32 characters;
   * authenticating with the same credentials gets 200; the restricted area
   * admits the login token; a wrong password gets 403 unless the hash
   * collides on the two salted passwords.
   */
  method RegisterAuthenticateVisit(sha: Sha256, codec: Codec, now: int)
    returns (registered: Response, authenticated: Response, visited: Response, wrong: Response)
    requires Sound(codec)
    ensures registered.Response? && registered.status == StatusCreated
    ensures registered.payload.TokenBody? && |registered.payload.token| >= 32
    ensures authenticated.Response? && authenticated.status == StatusOK && authenticated.payload.TokenBody?
    ensures visited == authenticated
    ensures NoCollision(sha, HashSalt + "daedbeef", HashSalt + "wrong") ==> wrong == Response(StatusForbidden, ErrorBody(InvalidLoginMsg))
  {
    var db := new Database.CreateDB();
    var creds := AuthRequest("ersin", "daedbeef");
    registered := RegisterHandler(db, sha, codec, "POST", Decoded(creds), now, false);
    AuthenticateAfterRegister(sha, codec, [], creds.user, creds.password, now);
    authenticated := AuthHandler(sha, codec, db.users, "POST", Decoded(creds), now);
    IssuedTokenGrantsAccess(codec, creds.user, now, now);
    visited := RestrictedHandler(codec, "POST", Decoded(JotToken(authenticated.payload.token)), now);
    wrong := AuthHandler(sha, codec, db.users, "POST", Decoded(AuthRequest("ersin", "wrong")), now);
    if NoCollision(sha, HashSalt + "daedbeef", HashSalt + "wrong") {
      OtherPasswordRefusedAfterInsert(sha, [], creds.user, creds.password, "wrong");
    }
  }
}
