/**
 * `POST /register` in `src/server.ts`: the invite gate in front of storing a
 * new passkey, and what it writes.
 */
module Registration {
  import opened Wrappers
  import opened Bytes
  import opened AuthData
  import opened Store
  import SessionAuth

  /** The form fields, with `pubkey` and `authdata` already turned into bytes by `atou8`. */
  datatype RegisterForm = RegisterForm(username: string, code: string, pubkey: seq<byte>, authdata: seq<byte>)

  /** How the handler ends: it throws, answers 400 with a message, or redirects. */
  datatype RegisterResult = Threw | BadRequest(message: string) | Redirect(location: string)

  /** The two tables the handler writes. */
  datatype Tables = Tables(invites: map<string, Invite>, passkeys: map<seq<byte>, Passkey>)

  /**
   * The passkey row a successful registration inserts. The handler hands
   * `insertNewPasskey` the recipient as `username`, but the insert binds
   * `user_id` from the `user_id` property, which is never set, and writes no
   * `username`: the row carries no owner at all.
   */
  function NewPasskey(ad: AuthenticatorData, form: RegisterForm): Passkey {
    Passkey(ad.credentialId, None, None, form.pubkey, ad.backupState)
  }

  /** The row evidently meant: the recipient's name stored where the login looks the owner up. */
  function IntendedNewPasskey(ad: AuthenticatorData, recipient: string, form: RegisterForm): Passkey {
    Passkey(ad.credentialId, Some(recipient), Some(recipient), form.pubkey, ad.backupState)
  }

  /**
   * The handler: the authenticator data is parsed before any invite check, so
   * malformed data throws whatever the code; then a missing, deleted or
   * someone else's invite is refused with 400. An invite that was already
   * activated is accepted again.
   */
  function Register(t: Tables, form: RegisterForm, now: int): (r: (Tables, RegisterResult))
    ensures r.0.invites.Keys == t.invites.Keys && t.passkeys.Keys <= r.0.passkeys.Keys
    ensures r.1 != Redirect("/") ==> r.0 == t
  {
    match ParseAuthData(form.authdata)
    case Err(_) => (t, Threw)
    case Ok(ad) =>
      if form.code !in t.invites then (t, BadRequest("no invite for code"))
      else
        var invite := t.invites[form.code];
        if invite.deletedOn.Some? then (t, BadRequest("invite was deleted"))
        else if invite.recipientUsername != Some(form.username) then (t, BadRequest("invite was for a different user"))
        else
          var activated := t.invites[form.code := invite.(activatedOn := Some(now))];
          var key := NewPasskey(ad, form);
          (Tables(activated, t.passkeys[ad.credentialId := key]), Redirect("/"))
  }

  /** The handler with the evidently intended row: the same gate, the recipient recorded as owner. */
  function IntendedRegister(t: Tables, form: RegisterForm, now: int): (Tables, RegisterResult) {
    match ParseAuthData(form.authdata)
    case Err(_) => (t, Threw)
    case Ok(ad) =>
      var (t', result) := Register(t, form, now);
      if result == Redirect("/") then
        (t'.(passkeys := t'.passkeys[ad.credentialId := IntendedNewPasskey(ad, form.username, form)]), result)
      else (t', result)
  }

  /** The handler on the database: activate the invite, then insert the passkey. */
  method PostRegister(db: Database, form: RegisterForm, now: int) returns (result: RegisterResult)
    requires db.Valid()
    modifies db
    ensures db.Valid()
    ensures (Tables(db.invites, db.passkeys), result) == Register(Tables(old(db.invites), old(db.passkeys)), form, now)
    ensures db.usersById == old(db.usersById) && db.usersByName == old(db.usersByName)
  {
    var invite := if form.code in db.invites then Some(db.invites[form.code]) else None;
    var parsed := ParseAuthData(form.authdata);
    if parsed.Err? {
      return Threw;
    }
    var ad := parsed.value;
    if invite.None? {
      return BadRequest("no invite for code");
    } else if invite.value.deletedOn.Some? {
      return BadRequest("invite was deleted");
    } else if invite.value.recipientUsername != Some(form.username) {
      return BadRequest("invite was for a different user");
    }
    db.ActivateInvite(form.code, now);
    db.InsertNewPasskey(NewPasskey(ad, form));
    result := Redirect("/");
  }

  // ---- properties ----

  /** The invite gate: a redirect exactly when the data parses and the code names a live invite for this user. */
  lemma RedirectExactlyForLiveInvite(t: Tables, form: RegisterForm, now: int)
    ensures Register(t, form, now).1 == Redirect("/") <==>
      && ParseAuthData(form.authdata).Ok?
      && form.code in t.invites
      && t.invites[form.code].deletedOn.None?
      && t.invites[form.code].recipientUsername == Some(form.username)
    ensures Register(t, form, now).1 != Redirect("/") ==> Register(t, form, now).0 == t
  {
  }

  /**
   * Past the parse, the invite checks refuse in order: an unknown code, then a
   * deleted invite, then an invite for someone else, each with its own message
   * and no write.
   */
  lemma InviteRefusalsInOrder(t: Tables, form: RegisterForm, now: int)
    requires ParseAuthData(form.authdata).Ok?
    ensures form.code !in t.invites ==> Register(t, form, now) == (t, BadRequest("no invite for code"))
    ensures form.code in t.invites && t.invites[form.code].deletedOn.Some? ==>
      Register(t, form, now) == (t, BadRequest("invite was deleted"))
    ensures form.code in t.invites && t.invites[form.code].deletedOn.None?
            && t.invites[form.code].recipientUsername != Some(form.username) ==>
      Register(t, form, now) == (t, BadRequest("invite was for a different user"))
  {
  }

  /** Malformed authenticator data throws before any invite is looked at. */
  lemma ParseFailureComesFirst(t: Tables, form: RegisterForm, now: int)
    requires ParseAuthData(form.authdata).Err?
    ensures Register(t, form, now) == (t, Threw)
  {
  }

  /**
   * A successful registration stores the credential id, no owner, the
   * submitted public key and the backup-state flag (bit 4 of the flags byte),
   * stamps the invite's activation time and touches nothing else.
   */
  lemma RegistrationWrites(t: Tables, form: RegisterForm, now: int)
    requires Register(t, form, now).1 == Redirect("/")
    ensures var (t', _) := Register(t, form, now);
      var ad := ParseAuthData(form.authdata).value;
      && ad.credentialId in t'.passkeys
      && t'.passkeys[ad.credentialId] == Passkey(ad.credentialId, None, None, form.pubkey, Bit(form.authdata[32], 4))
      && (forall id | id in t.passkeys && id != ad.credentialId :: id in t'.passkeys && t'.passkeys[id] == t.passkeys[id])
      && t'.invites.Keys == t.invites.Keys
      && t'.invites[form.code] == t.invites[form.code].(activatedOn := Some(now))
      && (forall c | c in t.invites && c != form.code :: t'.invites[c] == t.invites[c])
  {
    ParsedFlags(form.authdata);
  }

  /**
   * `activated_on` is never checked: the same code registers again after it has
   * been used, adding the second credential as well.
   */
  lemma ActivatedInviteReused(t: Tables, form: RegisterForm, second: RegisterForm, now: int, later: int)
    requires Register(t, form, now).1 == Redirect("/")
    requires second.code == form.code && second.username == form.username
    requires ParseAuthData(second.authdata).Ok?
    ensures var (t1, _) := Register(t, form, now);
      var (t2, r2) := Register(t1, second, later);
      && r2 == Redirect("/")
      && ParseAuthData(second.authdata).value.credentialId in t2.passkeys
      && ParseAuthData(form.authdata).value.credentialId in t2.passkeys
  {
  }

  /**
   * As written, a key registered through an invite never logs anyone in: its
   * row has no `username`, so whatever the assertion, `POST /login` with its
   * id records no user in either session and never answers `ok`.
   */
  lemma RegisteredKeyNeverLogsIn(t: Tables, form: RegisterForm, now: int,
                                 env: SessionAuth.LoginEnv, usersByName: map<string, User>,
                                 st: SessionAuth.SessionState, login: SessionAuth.LoginForm)
    requires Register(t, form, now).1 == Redirect("/")
    requires login.rawId == ParseAuthData(form.authdata).value.credentialId
    ensures var o := SessionAuth.Login(env, Register(t, form, now).0.passkeys, usersByName, st, login);
      && o.session.userId == st.userId && o.saved.userId == st.userId
      && SessionAuth.Response(o) != Some(SessionAuth.Reply(200, "ok"))
  {
    var passkeys := Register(t, form, now).0.passkeys;
    assert SessionAuth.Owner(passkeys[login.rawId], usersByName).None?;
    SessionAuth.StoredLoginOnlyWithOk(env, passkeys, usersByName, st, login);
    SessionAuth.UserRecordedOnlyWhenAuthorized(env, passkeys, usersByName, st, login);
  }

  /**
   * With the intended row, a key registered through an invite logs the
   * session in as the invited user: once the stored key verifies an assertion
   * over the session's challenge and the client data passes the checks,
   * `POST /login` answers `ok` and the stored session holds that user's id.
   */
  lemma RegisteredKeyLogsInRecipient(t: Tables, form: RegisterForm, now: int,
                                     env: SessionAuth.LoginEnv, usersByName: map<string, User>,
                                     st: SessionAuth.SessionState, login: SessionAuth.LoginForm)
    requires IntendedRegister(t, form, now).1 == Redirect("/")
    requires login.rawId == ParseAuthData(form.authdata).value.credentialId
    requires SessionAuth.Authorized(env, IntendedRegister(t, form, now).0.passkeys, usersByName, st, login)
    ensures form.username in usersByName
    ensures var o := SessionAuth.Login(env, IntendedRegister(t, form, now).0.passkeys, usersByName, st, login);
      SessionAuth.ClientDataAcceptable(env.validateDomain, env.parseClientData(login.clientDataJson).value) ==>
        && SessionAuth.Response(o) == Some(SessionAuth.Reply(200, "ok"))
        && o.saved.userId == Some(usersByName[form.username].id)
  {
    var passkeys := IntendedRegister(t, form, now).0.passkeys;
    SessionAuth.OkExactlyWhenAllChecksPass(env, passkeys, usersByName, st, login);
    SessionAuth.StoredLoginOnlyWithOk(env, passkeys, usersByName, st, login);
  }
}
