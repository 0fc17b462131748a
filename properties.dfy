/**
 * What `validateToken` guarantees, stated about its specification `Validate`
 * (which `ValidateToken` is proved to implement).
 */
module MiddlewareProperties {
  import opened Wrappers
  import opened JsSemantics
  import opened Store
  import opened Middleware

  // ---- Token extraction ----------------------------------------------------

  /** A header without "Bearer " anywhere in it yields no token. */
  lemma ExtractTokenNoSeparator(header: string)
    requires !Contains(header, BEARER_SEPARATOR)
    ensures ExtractToken(Some(header)) == None
  {
    SplitNoSeparator(header, BEARER_SEPARATOR);
  }

  /**
   * The token is the text between the first "Bearer " (at `k`, anywhere in the
   * header) and the next "Bearer " (at `e`) or the end of the header; an empty
   * text is no token.
   */
  lemma ExtractTokenFirstSegment(header: string, k: nat, e: nat)
    requires MatchAt(header, BEARER_SEPARATOR, k)
    requires forall j :: 0 <= j < k ==> !MatchAt(header, BEARER_SEPARATOR, j)
    requires k + |BEARER_SEPARATOR| <= e <= |header|
    requires e == |header| || MatchAt(header, BEARER_SEPARATOR, e)
    requires forall j :: k + |BEARER_SEPARATOR| <= j < e ==> !MatchAt(header, BEARER_SEPARATOR, j)
    ensures ExtractToken(Some(header))
         == if e == k + |BEARER_SEPARATOR| then None else Some(header[k + |BEARER_SEPARATOR|..e])
  {
    SplitSecondPiece(header, BEARER_SEPARATOR, k, e);
  }

  /** "Bearer " with nothing after it is no token. */
  lemma BearerAloneFails()
    ensures ExtractToken(Some("Bearer ")) == None
  {
    ExtractTokenFirstSegment("Bearer ", 0, 7);
  }

  /** The separator need not open the header. */
  lemma SeparatorAnywhere()
    ensures ExtractToken(Some("xBearer abc")) == Some("abc")
  {
    var header := "xBearer abc";
    assert !MatchAt(header, BEARER_SEPARATOR, 0) by {
      assert header[0..7][0] == 'x';
    }
    ExtractTokenFirstSegment(header, 1, 11);
  }

  /** The token stops at a second "Bearer ". */
  lemma TokenStopsAtNextSeparator()
    ensures ExtractToken(Some("Bearer a Bearer b")) == Some("a ")
  {
    var header := "Bearer a Bearer b";
    assert !MatchAt(header, BEARER_SEPARATOR, 7) by {
      assert header[7] == 'a' && header[7..14][0] == header[7];
    }
    assert !MatchAt(header, BEARER_SEPARATOR, 8) by {
      assert header[8] == ' ' && header[8..15][0] == header[8];
    }
    assert MatchAt(header, BEARER_SEPARATOR, 9) by {
      var before := "Bearer a ";
      assert header == before + BEARER_SEPARATOR + "b";
      assert header[9..16] == (before + BEARER_SEPARATOR + "b")[|before|..|before| + |BEARER_SEPARATOR|];
    }
    ExtractTokenFirstSegment(header, 0, 9);
    assert header == BEARER_SEPARATOR + "a " + "Bearer b";
    assert header[7..9] == (BEARER_SEPARATOR + "a " + "Bearer b")[|BEARER_SEPARATOR|..|BEARER_SEPARATOR| + 2];
  }

  /** The separator is matched case-sensitively. */
  lemma SchemeIsCaseSensitive()
    ensures ExtractToken(Some("bearer abc")) == None
  {
    var header := "bearer abc";
    forall k | 0 <= k <= |header| ensures !MatchAt(header, BEARER_SEPARATOR, k) {
      if k + 7 <= |header| {
        assert header[k..k + 7][0] == header[k];
        assert header[k] != 'B' by {
          assert k == 0 || k == 1 || k == 2 || k == 3;
        }
      }
    }
    ExtractTokenNoSeparator(header);
  }

  // ---- Failure paths -------------------------------------------------------

  /** No header, or one without "Bearer ": the 400 reply, and nothing changes. */
  lemma MissingTokenFails(
    authorization: Option<string>, user0: Option<User>, admins: map<string, AdminDoc>,
    players: map<string, PlayerDoc>, ignoreUndefined: bool, verifier: map<string, DecodedToken>, fault: Option<StoreCall>)
    requires authorization.None? || !Contains(authorization.value, BEARER_SEPARATOR)
    ensures Validate(authorization, user0, admins, players, ignoreUndefined, verifier, fault)
         == Step(Fail(NoTokenProvided), user0, players)
  {
    if authorization.Some? {
      ExtractTokenNoSeparator(authorization.value);
    }
  }

  /** A token the verifier does not accept: the 400 reply, and nothing changes. */
  lemma RejectedTokenFails(
    authorization: Option<string>, user0: Option<User>, admins: map<string, AdminDoc>,
    players: map<string, PlayerDoc>, ignoreUndefined: bool, verifier: map<string, DecodedToken>, fault: Option<StoreCall>)
    requires ExtractToken(authorization).Some? && ExtractToken(authorization).value !in verifier
    ensures Validate(authorization, user0, admins, players, ignoreUndefined, verifier, fault)
         == Step(Fail(TokenRejected), user0, players)
  {
  }

  /** `next()` is reached only with a verified token, and with `req.user` set to the context passed on. */
  lemma NextOnlyWhenVerified(
    authorization: Option<string>, user0: Option<User>, admins: map<string, AdminDoc>,
    players: map<string, PlayerDoc>, ignoreUndefined: bool, verifier: map<string, DecodedToken>, fault: Option<StoreCall>)
    requires Validate(authorization, user0, admins, players, ignoreUndefined, verifier, fault).outcome.Next?
    ensures var s := Validate(authorization, user0, admins, players, ignoreUndefined, verifier, fault);
      && ExtractToken(authorization).Some?
      && ExtractToken(authorization).value in verifier
      && s.outcome.user.token == verifier[ExtractToken(authorization).value]
      && s.user == Some(s.outcome.user)
      && fault != Some(ReadAdmin) && fault != Some(ReadPlayer)
  {
  }

  /** Every failure reply is the same 400 "Authentication failed.". */
  lemma FailureReplyIsUniform(
    authorization: Option<string>, user0: Option<User>, admins: map<string, AdminDoc>,
    players: map<string, PlayerDoc>, ignoreUndefined: bool, verifier: map<string, DecodedToken>, fault: Option<StoreCall>)
    requires Validate(authorization, user0, admins, players, ignoreUndefined, verifier, fault).outcome.Respond?
    ensures var o := Validate(authorization, user0, admins, players, ignoreUndefined, verifier, fault).outcome;
      o.status == 400 && o.message == "Authentication failed."
  {
  }

  /** A failed request leaves `players` as it was, unless the failure is the re-read after the write. */
  lemma FailureWritesNothing(
    authorization: Option<string>, user0: Option<User>, admins: map<string, AdminDoc>,
    players: map<string, PlayerDoc>, ignoreUndefined: bool, verifier: map<string, DecodedToken>, fault: Option<StoreCall>)
    requires var o := Validate(authorization, user0, admins, players, ignoreUndefined, verifier, fault).outcome;
      o.Respond? && o.error != StoreFailed(RereadPlayer)
    ensures Validate(authorization, user0, admins, players, ignoreUndefined, verifier, fault).players == players
  {
  }

  /**
   * When the re-read after the write rejects, the caller gets the 400 reply although
   * the new profile has already been stored.
   */
  lemma RereadFailureKeepsWrite(
    authorization: Option<string>, user0: Option<User>, admins: map<string, AdminDoc>,
    players: map<string, PlayerDoc>, ignoreUndefined: bool, verifier: map<string, DecodedToken>, fault: Option<StoreCall>)
    requires Validate(authorization, user0, admins, players, ignoreUndefined, verifier, fault).outcome == Fail(StoreFailed(RereadPlayer))
    ensures var s := Validate(authorization, user0, admins, players, ignoreUndefined, verifier, fault);
      && s.user.Some?
      && s.user.value.token.uid !in players
      && s.players == players[s.user.value.token.uid := NewPlayerDoc(s.user.value)]
  {
  }

  // ---- Admin flag ----------------------------------------------------------

  /**
   * Once the admin lookup has succeeded, `req.user` holds the decoded token and its
   * flag follows the three cases of src/index.ts:77-84.
   */
  lemma AdminFlagRule(
    authorization: Option<string>, user0: Option<User>, admins: map<string, AdminDoc>,
    players: map<string, PlayerDoc>, ignoreUndefined: bool, verifier: map<string, DecodedToken>, fault: Option<StoreCall>,
    token: string)
    requires ExtractToken(authorization) == Some(token) && token in verifier
    requires fault != Some(ReadAdmin)
    ensures var s := Validate(authorization, user0, admins, players, ignoreUndefined, verifier, fault);
      var decoded := verifier[token];
      && s.user.Some?
      && s.user.value.token == decoded
      && (decoded.uid in admins && admins[decoded.uid].isSuperAdmin.Truthy() ==> s.user.value.isSuperAdmin == Bool(true))
      && (decoded.uid !in admins ==> s.user.value.isSuperAdmin == Bool(false))
      && (decoded.uid in admins && !admins[decoded.uid].isSuperAdmin.Truthy() ==> s.user.value.isSuperAdmin == decoded.isSuperAdmin)
  {
  }

  /**
   * An admin document whose own flag is falsy does not revoke a truthy claim in the
   * token: the caller still counts as super admin.
   */
  lemma FalsyAdminDocKeepsClaim(
    authorization: Option<string>, user0: Option<User>, admins: map<string, AdminDoc>,
    players: map<string, PlayerDoc>, ignoreUndefined: bool, verifier: map<string, DecodedToken>, fault: Option<StoreCall>,
    token: string)
    requires ExtractToken(authorization) == Some(token) && token in verifier
    requires fault != Some(ReadAdmin)
    requires verifier[token].uid in admins && !admins[verifier[token].uid].isSuperAdmin.Truthy()
    requires verifier[token].isSuperAdmin.Truthy()
    ensures var s := Validate(authorization, user0, admins, players, ignoreUndefined, verifier, fault);
      s.user.Some? && s.user.value.isSuperAdmin.Truthy()
  {
    AdminFlagRule(authorization, user0, admins, players, ignoreUndefined, verifier, fault, token);
  }

  // ---- Profiles ------------------------------------------------------------

  /** An existing profile is attached as it is, and `players` is not written. */
  lemma ExistingProfileAttached(
    authorization: Option<string>, user0: Option<User>, admins: map<string, AdminDoc>,
    players: map<string, PlayerDoc>, ignoreUndefined: bool, verifier: map<string, DecodedToken>, fault: Option<StoreCall>,
    token: string)
    requires ExtractToken(authorization) == Some(token) && token in verifier
    requires verifier[token].uid in players
    requires fault != Some(ReadAdmin) && fault != Some(ReadPlayer)
    ensures var s := Validate(authorization, user0, admins, players, ignoreUndefined, verifier, fault);
      && s.outcome.Next?
      && s.outcome.user.playerData == Some(players[verifier[token].uid])
      && s.players == players
  {
  }

  /**
   * Under the default settings a first-time caller whose token lacks an email, a
   * name or a picture gets the 400 reply: the new profile would hold an `undefined`
   * field, which `set` refuses, so nothing is stored and no later call can succeed
   * either without a change to the token or the settings.
   */
  lemma UndefinedFieldRefused(
    authorization: Option<string>, user0: Option<User>, admins: map<string, AdminDoc>,
    players: map<string, PlayerDoc>, verifier: map<string, DecodedToken>, fault: Option<StoreCall>,
    token: string)
    requires ExtractToken(authorization) == Some(token) && token in verifier
    requires verifier[token].uid !in players
    requires verifier[token].email.None? || verifier[token].name.None? || verifier[token].picture.None?
    requires fault != Some(ReadAdmin) && fault != Some(ReadPlayer)
    ensures var s := Validate(authorization, user0, admins, players, false, verifier, fault);
      && s.outcome == Fail(UndefinedValueRefused)
      && s.players == players
      && s.user.Some? && s.user.value.token == verifier[token] && s.user.value.playerData.None?
  {
  }

  /**
   * A first-time caller gets exactly one new entry, under its uid, copied from the
   * token with `email_verified` and `isSuperAdmin` defaulted to false when falsy,
   * and that entry is what is attached.
   */
  lemma NewProfileCreated(
    authorization: Option<string>, user0: Option<User>, admins: map<string, AdminDoc>,
    players: map<string, PlayerDoc>, ignoreUndefined: bool, verifier: map<string, DecodedToken>, token: string)
    requires ExtractToken(authorization) == Some(token) && token in verifier
    requires verifier[token].uid !in players
    requires ignoreUndefined || (verifier[token].email.Some? && verifier[token].name.Some? && verifier[token].picture.Some?)
    ensures var s := Validate(authorization, user0, admins, players, ignoreUndefined, verifier, None);
      var d := verifier[token];
      && s.outcome.Next?
      && s.players.Keys == players.Keys + {d.uid}
      && (forall k :: k in players ==> s.players[k] == players[k])
      && var doc := s.players[d.uid];
      && s.outcome.user.playerData == Some(doc)
      && doc.uid == d.uid && doc.email == d.email && doc.name == d.name && doc.picture == d.picture
      && (doc.emailVerified <==> d.emailVerified == Some(true))
      && (doc.isSuperAdmin.Truthy() <==> s.outcome.user.isSuperAdmin.Truthy())
      && (!s.outcome.user.isSuperAdmin.Truthy() ==> doc.isSuperAdmin == Bool(false))
  {
  }

  /** After a successful call the caller's profile is stored and is the one attached. */
  lemma SuccessHasProfile(
    authorization: Option<string>, user0: Option<User>, admins: map<string, AdminDoc>,
    players: map<string, PlayerDoc>, ignoreUndefined: bool, verifier: map<string, DecodedToken>, fault: Option<StoreCall>)
    requires Validate(authorization, user0, admins, players, ignoreUndefined, verifier, fault).outcome.Next?
    ensures var s := Validate(authorization, user0, admins, players, ignoreUndefined, verifier, fault);
      var uid := s.outcome.user.token.uid;
      uid in s.players && s.outcome.user.playerData == Some(s.players[uid])
  {
  }

  /** No call removes or changes a stored profile, and at most one is added. */
  lemma NeverOverwrites(
    authorization: Option<string>, user0: Option<User>, admins: map<string, AdminDoc>,
    players: map<string, PlayerDoc>, ignoreUndefined: bool, verifier: map<string, DecodedToken>, fault: Option<StoreCall>)
    ensures var s := Validate(authorization, user0, admins, players, ignoreUndefined, verifier, fault);
      && (forall k :: k in players ==> k in s.players && s.players[k] == players[k])
      && |s.players| <= |players| + 1
  {
  }

  /**
   * A second call with the same token writes nothing, whatever its store does, and
   * when its reads succeed it passes on the same context as the first call.
   */
  lemma SecondRequestWritesNothing(
    authorization: Option<string>, user0: Option<User>, user1: Option<User>,
    admins: map<string, AdminDoc>, players: map<string, PlayerDoc>, ignoreUndefined: bool,
    verifier: map<string, DecodedToken>, fault1: Option<StoreCall>, fault2: Option<StoreCall>)
    requires Validate(authorization, user0, admins, players, ignoreUndefined, verifier, fault1).outcome.Next?
    ensures var first := Validate(authorization, user0, admins, players, ignoreUndefined, verifier, fault1);
      var second := Validate(authorization, user1, admins, first.players, ignoreUndefined, verifier, fault2);
      && second.players == first.players
      && (fault2 != Some(ReadAdmin) && fault2 != Some(ReadPlayer) ==>
            second.outcome == first.outcome && second.user == first.user)
  {
    var first := Validate(authorization, user0, admins, players, ignoreUndefined, verifier, fault1);
    SuccessHasProfile(authorization, user0, admins, players, ignoreUndefined, verifier, fault1);
    NextOnlyWhenVerified(authorization, user0, admins, players, ignoreUndefined, verifier, fault1);
    if fault2 != Some(ReadAdmin) {
      AdminFlagRule(authorization, user1, admins, first.players, ignoreUndefined, verifier, fault2, ExtractToken(authorization).value);
      AdminFlagRule(authorization, user0, admins, players, ignoreUndefined, verifier, fault1, ExtractToken(authorization).value);
    }
  }

  /**
   * First sign-in of "u1" (email "a@b.com", verified, no name, no picture, no
   * admin document) under the default settings: the profile would carry an
   * `undefined` name and picture, so the write is refused, the caller gets the 400
   * reply and `players` stays empty.
   */
  lemma FirstSignInScenario()
    ensures var decoded := DecodedToken("u1", Some("a@b.com"), None, Some(true), None, Undefined);
      var s := Validate(Some("Bearer tok-u1"), None, map[], map[], false, map["tok-u1" := decoded], None);
      && s.outcome == Fail(UndefinedValueRefused)
      && s.players == map[]
  {
    ExtractTokenFirstSegment("Bearer tok-u1", 0, 13);
  }

  /**
   * The same sign-in against a store with `ignoreUndefinedProperties` on: the
   * `undefined` fields are dropped, the profile is stored and the caller proceeds.
   */
  lemma FirstSignInIgnoringUndefined()
    ensures var decoded := DecodedToken("u1", Some("a@b.com"), None, Some(true), None, Undefined);
      var s := Validate(Some("Bearer tok-u1"), None, map[], map[], true, map["tok-u1" := decoded], None);
      && s.players == map["u1" := PlayerDoc("u1", Some("a@b.com"), None, true, None, Bool(false))]
      && s.outcome.Next?
      && s.outcome.user.isSuperAdmin == Bool(false)
      && s.outcome.user.playerData == Some(s.players["u1"])
  {
    ExtractTokenFirstSegment("Bearer tok-u1", 0, 13);
  }
}
