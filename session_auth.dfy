/**
 * The passkey login flow of `src/server.ts`: a page load issues a random
 * challenge into the session, and `POST /login` checks the assertion the browser
 * made over it and, if the passkey verifies, records the user in the session.
 */
module SessionAuth {
  import opened Wrappers
  import opened Bytes
  import Base64
  import opened WebAuthnVerify
  import opened Store

  // ---- the session ----

  /** The two session fields the flow uses, as a value. */
  datatype SessionState = SessionState(challenge: Option<string>, userId: Option<string>)

  /** The server-side session of one browser (`req.session`). */
  class Session {
    var challenge: Option<string>
    var userId: Option<string>

    constructor ()
      ensures challenge == None && userId == None
    {
      challenge := None;
      userId := None;
    }

    function State(): SessionState
      reads this
    {
      SessionState(challenge, userId)
    }
  }

  // ---- the URL-safe rewrite of the stored challenge ----

  /** `s.replaceAll(c, "")`. */
  function RemoveChar(s: string, c: char): (r: string)
    ensures c !in r && |r| <= |s|
    ensures forall x | x in r :: x in s
  {
    if s == [] then [] else (if s[0] == c then [] else [s[0]]) + RemoveChar(s[1..], c)
  }

  /** Exactly the occurrences of `c` go, and every other character stays. */
  lemma {:induction false} RemoveCharCount(s: string, c: char)
    ensures |RemoveChar(s, c)| == |s| - multiset(s)[c]
    ensures forall x | x != c :: multiset(RemoveChar(s, c))[x] == multiset(s)[x]
  {
    if s != [] {
      assert s == [s[0]] + s[1..];
      RemoveCharCount(s[1..], c);
    }
  }

  /** `s.replaceAll(from, to)` for single characters. */
  function ReplaceChar(s: string, from: char, to: char): (r: string)
    ensures |r| == |s|
    ensures forall i | 0 <= i < |s| :: r[i] == (if s[i] == from then to else s[i])
  {
    if s == [] then [] else [if s[0] == from then to else s[0]] + ReplaceChar(s[1..], from, to)
  }

  /**
   * The stored (standard, padded) challenge rewritten the way browsers put it
   * into client data: padding dropped, `+` to `-`, `/` to `_`.
   */
  function ToUrlSafe(s: string): (r: string)
    ensures '=' !in r && '+' !in r && '/' !in r
  {
    ReplaceChar(ReplaceChar(RemoveChar(s, '='), '+', '-'), '/', '_')
  }

  lemma {:induction false} RemoveCharAppend(a: string, b: string, c: char)
    ensures RemoveChar(a + b, c) == RemoveChar(a, c) + RemoveChar(b, c)
  {
    if a != [] {
      assert (a + b)[1..] == a[1..] + b;
      RemoveCharAppend(a[1..], b, c);
    } else {
      assert a + b == b;
    }
  }

  lemma ReplaceCharAppend(a: string, b: string, from: char, to: char)
    ensures ReplaceChar(a + b, from, to) == ReplaceChar(a, from, to) + ReplaceChar(b, from, to)
  {
  }

  /** The rewrite works character by character. */
  lemma ToUrlSafeAppend(a: string, b: string)
    ensures ToUrlSafe(a + b) == ToUrlSafe(a) + ToUrlSafe(b)
  {
    RemoveCharAppend(a, b, '=');
    var a1, b1 := RemoveChar(a, '='), RemoveChar(b, '=');
    ReplaceCharAppend(a1, b1, '+', '-');
    ReplaceCharAppend(ReplaceChar(a1, '+', '-'), ReplaceChar(b1, '+', '-'), '/', '_');
  }

  /** The character mapping of the last two passes. */
  function UrlChar(c: char): char {
    if c == '+' then '-' else if c == '/' then '_' else c
  }

  lemma ToUrlSafePointwise(s: string)
    ensures var r, d := ToUrlSafe(s), RemoveChar(s, '=');
      |r| == |d| && forall i | 0 <= i < |d| :: r[i] == UrlChar(d[i])
  {
  }

  lemma RemoveAbsent(s: string, c: char)
    requires c !in s
    ensures RemoveChar(s, c) == s
  {
  }

  lemma UrlCharOfAlphabet(v: int)
    requires 0 <= v < 64
    ensures UrlChar(Base64.CharOf(v)) == Base64.UrlCharOf(v) && Base64.CharOf(v) != '='
  {
  }

  lemma ToUrlSafeQuad(v0: int, v1: int, v2: int, v3: int)
    requires 0 <= v0 < 64 && 0 <= v1 < 64 && 0 <= v2 < 64 && 0 <= v3 < 64
    ensures ToUrlSafe([Base64.CharOf(v0), Base64.CharOf(v1), Base64.CharOf(v2), Base64.CharOf(v3)])
         == [Base64.UrlCharOf(v0), Base64.UrlCharOf(v1), Base64.UrlCharOf(v2), Base64.UrlCharOf(v3)]
  {
    var q := [Base64.CharOf(v0), Base64.CharOf(v1), Base64.CharOf(v2), Base64.CharOf(v3)];
    UrlCharOfAlphabet(v0); UrlCharOfAlphabet(v1); UrlCharOfAlphabet(v2); UrlCharOfAlphabet(v3);
    RemoveAbsent(q, '=');
    ToUrlSafePointwise(q);
  }

  lemma ToUrlSafePadded(v0: int, v1: int, v2: int)
    requires 0 <= v0 < 64 && 0 <= v1 < 64 && 0 <= v2 < 64
    ensures ToUrlSafe([Base64.CharOf(v0), Base64.CharOf(v1), Base64.CharOf(v2), Base64.Pad])
         == [Base64.UrlCharOf(v0), Base64.UrlCharOf(v1), Base64.UrlCharOf(v2)]
    ensures ToUrlSafe([Base64.CharOf(v0), Base64.CharOf(v1), Base64.Pad, Base64.Pad])
         == [Base64.UrlCharOf(v0), Base64.UrlCharOf(v1)]
  {
    var c0, c1, c2, p := Base64.CharOf(v0), Base64.CharOf(v1), Base64.CharOf(v2), Base64.Pad;
    UrlCharOfAlphabet(v0); UrlCharOfAlphabet(v1); UrlCharOfAlphabet(v2);
    assert RemoveChar([p], '=') == [] by { assert [p][1..] == []; }
    var one, two := [c0, c1, c2, p], [c0, c1, p, p];
    assert one == [c0, c1, c2] + [p];
    RemoveCharAppend([c0, c1, c2], [p], '=');
    RemoveAbsent([c0, c1, c2], '=');
    ToUrlSafePointwise(one);
    assert two == [c0, c1] + [p] + [p];
    RemoveCharAppend([c0, c1] + [p], [p], '=');
    RemoveCharAppend([c0, c1], [p], '=');
    RemoveAbsent([c0, c1], '=');
    ToUrlSafePointwise(two);
  }

  /**
   * Rewriting the standard encoding of some bytes gives exactly their unpadded
   * base64url encoding (section 5 of RFC 4648), the form in which the browser
   * echoes the challenge.
   */
  lemma {:induction false} UrlSafeOfEncoding(b: seq<byte>)
    ensures ToUrlSafe(Base64.Encode(b)) == Base64.EncodeUrl(b)
    decreases |b|
  {
    if |b| == 0 {
    } else if |b| == 1 {
      ToUrlSafePadded(b[0] / 4, (b[0] % 4) * 16, 0);
    } else if |b| == 2 {
      ToUrlSafePadded(b[0] / 4, (b[0] % 4) * 16 + b[1] / 16, (b[1] % 16) * 4);
    } else {
      var q := Base64.EncodeTriple(b[0], b[1], b[2]);
      assert Base64.Encode(b) == q + Base64.Encode(b[3..]);
      ToUrlSafeAppend(q, Base64.Encode(b[3..]));
      ToUrlSafeQuad(b[0] / 4, (b[0] % 4) * 16 + b[1] / 16, (b[1] % 16) * 4 + b[2] / 64, b[2] % 64);
      UrlSafeOfEncoding(b[3..]);
    }
  }

  // ---- issuing challenges ----

  /** `GET /login`: 32 random bytes, stored and rendered as standard base64. */
  method GetLogin(session: Session, random: seq<byte>) returns (rendered: string)
    requires |random| == 32
    modifies session
    ensures rendered == Base64.Encode(random)
    ensures session.challenge == Some(rendered) && session.userId == old(session.userId)
  {
    session.challenge := Some(Base64.Encode(random));
    rendered := session.challenge.value;
  }

  /** `withUserMiddleware`: the user whose (non-empty) id the session holds, if that user exists. */
  function CurrentUser(userId: Option<string>, usersById: map<string, User>): (u: Option<User>)
    ensures u.Some? <==> userId.Some? && userId.value != "" && userId.value in usersById
    ensures u.Some? ==> u.value == usersById[userId.value]
  {
    if userId.Some? && userId.value != "" && userId.value in usersById then Some(usersById[userId.value])
    else None
  }

  /** The challenge `GET /` leaves in the session. */
  function HomeChallenge(st: SessionState, usersById: map<string, User>, random: seq<byte>): Option<string> {
    var user := CurrentUser(st.userId, usersById);
    if user.Some? && user.value.referencedBy.None? then st.challenge else Some(Base64.Encode(random))
  }

  /**
   * `GET /`: a logged-in member nobody invited sees the invite lists and keeps
   * the session's challenge; everyone else is issued a fresh one. The page
   * renders whatever challenge the session then holds, possibly none.
   */
  method GetHome(session: Session, db: Database, random: seq<byte>) returns (rendered: Option<string>)
    requires |random| == 32
    modifies session
    ensures session.challenge == HomeChallenge(old(session.State()), db.usersById, random)
    ensures session.userId == old(session.userId) && rendered == session.challenge
  {
    var user := CurrentUser(session.userId, db.usersById);
    if !(user.Some? && user.value.referencedBy.None?) {
      session.challenge := Some(Base64.Encode(random));
    }
    rendered := session.challenge;
  }

  /** A page load leaves the home page's visitor holding a challenge unless they are an uninvited member. */
  lemma HomeIssuesToVisitors(st: SessionState, usersById: map<string, User>, random: seq<byte>)
    ensures HomeChallenge(st, usersById, random) == Some(Base64.Encode(random))
            <== CurrentUser(st.userId, usersById).None? || CurrentUser(st.userId, usersById).value.referencedBy.Some?
    ensures CurrentUser(st.userId, usersById).Some? && CurrentUser(st.userId, usersById).value.referencedBy.None?
            ==> HomeChallenge(st, usersById, random) == st.challenge
  {
  }

  /**
   * The shape of an issued challenge: 44 characters with exactly one `=` at the
   * end, decoding back to the random bytes; the browser echoes it as 43 characters.
   */
  lemma IssuedChallengeShape(random: seq<byte>)
    requires |random| == 32
    ensures var c := Base64.Encode(random);
      && |c| == 44 && c[43] == '=' && '=' !in c[..43]
      && Base64.IsBase64(c) && Base64.Decode(c) == random
      && |ToUrlSafe(c)| == 43
  {
    var c := Base64.Encode(random);
    assert |c| == 44 && c[43] == '=' && '=' !in c[..43] by {
      Base64.EncodeShape(random);
      assert Base64.PadCount(32) == 1;
      forall i | 0 <= i < 43 ensures c[..43][i] != '=' {
        assert Base64.IsAlphabetChar(c[i]);
      }
    }
    assert Base64.IsBase64(c) && Base64.Decode(c) == random by {
      Base64.DecodeEncode(random);
    }
    assert |ToUrlSafe(c)| == 43 by {
      UrlSafeOfEncoding(random);
    }
  }

  // ---- from the URL-safe form back to the standard one ----

  function StdChar(c: char): char {
    if c == '-' then '+' else if c == '_' then '/' else c
  }

  /** Undoes the character mapping of the base64url alphabet. */
  function ToStd(u: string): (s: string)
    ensures |s| == |u| && forall i | 0 <= i < |u| :: s[i] == StdChar(u[i])
  {
    seq(|u|, i requires 0 <= i < |u| => StdChar(u[i]))
  }

  function Pads(n: nat): (p: string)
    ensures |p| == n && forall i | 0 <= i < n :: p[i] == '='
  {
    seq(n, _ => '=')
  }

  lemma StdOfUrlChar(v: int)
    requires 0 <= v < 64
    ensures StdChar(Base64.UrlCharOf(v)) == Base64.CharOf(v)
  {
  }

  lemma ToStdAppend(u: string, v: string)
    ensures ToStd(u + v) == ToStd(u) + ToStd(v)
  {
    var l, r := ToStd(u + v), ToStd(u) + ToStd(v);
    forall i | 0 <= i < |l| ensures l[i] == r[i] {
      if i < |u| { assert (u + v)[i] == u[i]; } else { assert (u + v)[i] == v[i - |u|]; }
    }
  }

  /** The base64url characters of a full quad. */
  function UrlQuad(b0: byte, b1: byte, b2: byte): string {
    [Base64.UrlCharOf(b0 / 4), Base64.UrlCharOf((b0 % 4) * 16 + b1 / 16),
     Base64.UrlCharOf((b1 % 16) * 4 + b2 / 64), Base64.UrlCharOf(b2 % 64)]
  }

  /** The four characters of a full quad map back to the standard ones. */
  lemma ToStdQuad(b0: byte, b1: byte, b2: byte)
    ensures ToStd(UrlQuad(b0, b1, b2)) == Base64.EncodeTriple(b0, b1, b2)
  {
    StdOfUrlChar(b0 / 4);
    StdOfUrlChar((b0 % 4) * 16 + b1 / 16);
    StdOfUrlChar((b1 % 16) * 4 + b2 / 64);
    StdOfUrlChar(b2 % 64);
  }

  /** The standard encoding is the base64url one mapped back and re-padded. */
  lemma {:induction false} EncodingFromUrl(b: seq<byte>)
    ensures Base64.Encode(b) == ToStd(Base64.EncodeUrl(b)) + Pads(Base64.PadCount(|b|))
    decreases |b|
  {
    var e, u := Base64.Encode(b), Base64.EncodeUrl(b);
    var r := ToStd(u) + Pads(Base64.PadCount(|b|));
    if |b| == 0 {
    } else if |b| <= 2 {
      forall i | 0 <= i < |u| ensures r[i] == e[i] {
        if i == 0 { StdOfUrlChar(b[0] / 4); }
        else if i == 1 && |b| == 1 { StdOfUrlChar((b[0] % 4) * 16); }
        else if i == 1 { StdOfUrlChar((b[0] % 4) * 16 + b[1] / 16); }
        else { StdOfUrlChar((b[1] % 16) * 4); }
      }
    } else {
      EncodingFromUrl(b[3..]);
      var uq, ur := UrlQuad(b[0], b[1], b[2]), Base64.EncodeUrl(b[3..]);
      assert u == uq + ur;
      assert e == Base64.EncodeTriple(b[0], b[1], b[2]) + Base64.Encode(b[3..]);
      assert Base64.PadCount(|b|) == Base64.PadCount(|b| - 3);
      ToStdQuad(b[0], b[1], b[2]);
      MapBackStep(e, Base64.EncodeTriple(b[0], b[1], b[2]), Base64.Encode(b[3..]), u, uq, ur, Pads(Base64.PadCount(|b|)));
    }
  }

  /** The inductive step of `EncodingFromUrl`, on the texts alone. */
  lemma MapBackStep(e: string, q: string, eRest: string, u: string, uq: string, uRest: string, p: string)
    requires e == q + eRest && u == uq + uRest
    requires ToStd(uq) == q && eRest == ToStd(uRest) + p
    ensures e == ToStd(u) + p
  {
    ToStdAppend(uq, uRest);
    assert q + (ToStd(uRest) + p) == (q + ToStd(uRest)) + p;
  }

  /**
   * Distinct challenges of the same length are echoed differently, so issuing a
   * fresh challenge makes a client data echo of the previous one a mismatch.
   */
  lemma ReissueInvalidatesEcho(r1: seq<byte>, r2: seq<byte>)
    requires |r1| == |r2| && r1 != r2
    ensures ToUrlSafe(Base64.Encode(r1)) != ToUrlSafe(Base64.Encode(r2))
  {
    UrlSafeOfEncoding(r1);
    UrlSafeOfEncoding(r2);
    EncodingFromUrl(r1);
    EncodingFromUrl(r2);
    Base64.DecodeEncode(r1);
    Base64.DecodeEncode(r2);
  }

  // ---- POST /login ----

  const WebAuthnGet: string := "webauthn.get"

  /** `VALIDATED_DOMAINS` for the configured port 3000. */
  const ValidatedDomains: seq<string> :=
    ["http://localhost:3000", "https://foto.generic.cx", "http://skane.local:3000", "https://snaps.studiosnack.net"]

  /**
   * A property of the parsed client data that the handler prints in a reply:
   * absent (`undefined`), a string, or any other JSON value (`null`, a number,
   * a boolean, an array, an object) together with the text a template literal
   * renders it as (`"null"`, `"5"`, `"1,2"`, `"[object Object]"`), or an
   * object whose string conversion throws (its `toString` is not a function,
   * as in `{"toString": 1}`).
   */
  datatype JsField = Absent | Str(s: string) | NonString(text: string) | Unprintable

  /**
   * The fields of the parsed client data JSON that the handler reads.
   * `challenge`, `type` and `origin` are printed in logs or replies, so they
   * keep what the value renders as; only a boolean `crossOrigin` matters to
   * its comparison, so anything else there is `None`.
   */
  datatype ClientData = ClientData(kind: JsField, challenge: JsField,
                                   origin: JsField, crossOrigin: Option<bool>)

  /** The form fields, already turned into bytes by `atou8`. */
  datatype LoginForm = LoginForm(rawId: seq<byte>, authenticatorData: seq<byte>,
                                 signature: seq<byte>, clientDataJson: seq<byte>)

  /**
   * The handler's surroundings: whether `VALIDATE_DOMAIN` is on, the crypto
   * primitives, and `JSON.parse` of the client data bytes. `None` stands for a
   * parse that throws or yields `null`: the mismatch branch then throws when it
   * logs `cdj.challenge`. Any other value, an object or not, is a `ClientData`
   * read from its properties; a number, string, boolean or array has none of
   * them, so every field is absent and it takes the mismatch branch.
   */
  datatype LoginEnv = LoginEnv(validateDomain: bool, crypto: Crypto,
                               parseClientData: seq<byte> -> Option<ClientData>)

  /** A response the handler tried to send: status and body. */
  datatype Reply = Reply(status: int, body: string)

  /**
   * What a request did: the request's in-memory session at its end, every
   * response the handler tried to send in order, whether it ended by throwing,
   * and the session the store holds afterwards. With `resave: false` the
   * session is written once, when the first response ends, so `saved` is the
   * in-memory session as it stood then, or the incoming one when nothing was
   * sent. Once a response has gone out, a further `res.send` throws (its
   * headers are already sent) and ends the handler; a further `res.end` does
   * nothing.
   */
  datatype Outcome = Outcome(session: SessionState, replies: seq<Reply>, threw: bool, saved: SessionState)

  /** Only the first response reaches the client. */
  function Response(o: Outcome): (r: Option<Reply>)
    ensures r.Some? <==> |o.replies| > 0
    ensures r.Some? ==> r.value == o.replies[0]
  {
    if |o.replies| == 0 then None else Some(o.replies[0])
  }

  /**
   * A template literal's rendering of a client data property. An
   * `Unprintable` value has none: the handler throws on converting it before
   * any reply that would carry it, so its empty text here is never sent.
   */
  function Show(v: JsField): string {
    match v
    case Absent => "undefined"
    case Str(s) => s
    case NonString(text) => text
    case Unprintable => ""
  }

  /** Whether the `type` and `origin` the checks may print convert to strings. */
  predicate Printable(cd: ClientData) {
    !cd.kind.Unprintable? && !cd.origin.Unprintable?
  }

  /** `VALIDATED_DOMAINS.includes(origin)`: only a string can equal a listed domain. */
  predicate OriginListed(origin: JsField) {
    origin.Str? && origin.s in ValidatedDomains
  }

  /**
   * The 401s the type, cross-origin and origin checks would send, in order.
   * These checks do not return, so the handler goes on after the first; the
   * second one's `send` throws.
   */
  function ClientDataReplies(validateDomain: bool, cd: ClientData): seq<Reply> {
    TypeAndCrossOriginReplies(cd)
    + (if !OriginListed(cd.origin) && validateDomain then [Reply(401, "bad cdj origin: " + Show(cd.origin))] else [])
  }

  /** The 401s of the first two checks, type and cross-origin. */
  function TypeAndCrossOriginReplies(cd: ClientData): seq<Reply> {
    (if cd.kind != Str(WebAuthnGet) then [Reply(401, "bad webauthn type: " + Show(cd.kind))] else [])
    + (if cd.crossOrigin == Some(true) then [Reply(401, "crossOrigin logins not permitted")] else [])
  }

  /** How many of the type, cross-origin and (when on) origin checks the request's client data fails. */
  function FailedChecks(env: LoginEnv, form: LoginForm): nat
    requires env.parseClientData(form.clientDataJson).Some?
  {
    |ClientDataReplies(env.validateDomain, env.parseClientData(form.clientDataJson).value)|
  }

  /** Whether the client data passes the type, cross-origin and (when on) origin checks. */
  predicate ClientDataAcceptable(validateDomain: bool, cd: ClientData) {
    cd.kind == Str(WebAuthnGet) && cd.crossOrigin != Some(true) && (OriginListed(cd.origin) || !validateDomain)
  }

  /** The passkey with this id exists and the assertion verifies against its key. */
  predicate SignatureAccepted(crypto: Crypto, passkeys: map<seq<byte>, Passkey>, form: LoginForm) {
    && form.rawId in passkeys
    && var pk := passkeys[form.rawId];
    && ParseKey(crypto, pk.publicKeySpki).Ok?
    && VerifyAuth(crypto, ParseKey(crypto, pk.publicKeySpki).value, form.signature,
                  form.authenticatorData, form.clientDataJson) == Ok(true)
  }

  /**
   * `getUserByName(db, passkeyData.username)`: the user named by the row's
   * `username` property, if the row has one and such a user exists.
   */
  function Owner(pk: Passkey, usersByName: map<string, User>): Option<User> {
    if pk.username.Some? && pk.username.value in usersByName then Some(usersByName[pk.username.value]) else None
  }

  /**
   * The handler from the passkey lookup on, `answered` telling whether a check
   * already sent a response. The 401s here use `res.end`, which never throws;
   * `no userid?` and `ok` use `res.send`, which throws after an earlier
   * response. It tries at most one response, never touches the challenge, and
   * changes the user only together with an `ok`.
   */
  function Authenticate(crypto: Crypto, passkeys: map<seq<byte>, Passkey>, usersByName: map<string, User>,
                        st: SessionState, form: LoginForm, answered: bool): (o: Outcome)
    ensures |o.replies| <= 1 && (o.replies == [] ==> o.threw && o.session == st)
    ensures o.session.challenge == st.challenge
    ensures o.saved == if answered then st else o.session
    ensures o.session.userId != st.userId ==> o.replies == [Reply(200, "ok")]
    ensures !answered && o.threw ==> o.replies == []
  {
    if form.rawId !in passkeys then Outcome(st, [Reply(401, "")], false, st)
    else
      var pk := passkeys[form.rawId];
      match ParseKey(crypto, pk.publicKeySpki)
      case Err(_) => Outcome(st, [], true, st)
      case Ok(key) =>
        match VerifyAuth(crypto, key, form.signature, form.authenticatorData, form.clientDataJson)
        case Err(_) => Outcome(st, [], true, st)
        case Ok(valid) =>
          if !valid then Outcome(st, [Reply(401, "")], false, st)
          else
            match Owner(pk, usersByName)
            case None => Outcome(st, [Reply(200, "no userid?")], answered, st)
            case Some(user) =>
              var loggedIn := st.(userId := Some(user.id));
              Outcome(loggedIn, [Reply(200, "ok")], answered, if answered then st else loggedIn)
  }

  /**
   * `POST /login`. A request that does not throw is always answered; the
   * challenge is kept or burnt, never replaced; the store ends with either the
   * incoming session or the request's final one, and with the incoming one
   * whenever the handler throws.
   */
  function Login(env: LoginEnv, passkeys: map<seq<byte>, Passkey>, usersByName: map<string, User>,
                 st: SessionState, form: LoginForm): (o: Outcome)
    ensures !o.threw ==> |o.replies| >= 1
    ensures o.threw ==> o.saved == st
    ensures o.session.challenge == st.challenge || o.session.challenge == None
    ensures o.saved == st || o.saved == o.session
  {
    if st.challenge.None? then Outcome(st, [Reply(400, "")], false, st)
    else
      match env.parseClientData(form.clientDataJson)
      case None => Outcome(st, [], true, st)
      case Some(cd) =>
        if cd.challenge != Str(ToUrlSafe(st.challenge.value)) then
          if cd.challenge.Unprintable? then Outcome(st, [], true, st)
          else
            var burnt := st.(challenge := None);
            Outcome(burnt, [Reply(401, "bad challenge")], false, burnt)
        else if cd.kind.Unprintable? then Outcome(st, [], true, st)
        else if cd.origin.Unprintable? then Outcome(st, TypeAndCrossOriginReplies(cd), true, st)
        else
          var checks := ClientDataReplies(env.validateDomain, cd);
          if |checks| > 1 then Outcome(st, checks[..2], true, st)
          else
            var rest := Authenticate(env.crypto, passkeys, usersByName, st, form, checks != []);
            rest.(replies := checks + rest.replies)
  }

  /**
   * The handler, step by step, on the session object. `saved` follows the
   * session as it stood when the first response was sent; only the mismatch
   * and the `ok` branch have changed the session by then.
   */
  method PostLogin(env: LoginEnv, db: Database, session: Session, form: LoginForm)
    returns (replies: seq<Reply>, threw: bool, saved: SessionState)
    modifies session
    ensures Outcome(session.State(), replies, threw, saved)
         == Login(env, db.passkeys, db.usersByName, old(session.State()), form)
  {
    replies, threw, saved := [], false, session.State();
    if session.challenge == None {
      replies := replies + [Reply(400, "")];
      return;
    }
    var parsed := env.parseClientData(form.clientDataJson);
    if parsed.None? {
      threw := true;
      return;
    }
    var cd := parsed.value;
    var expected := ToUrlSafe(session.challenge.value);
    if cd.challenge != Str(expected) {
      if cd.challenge.Unprintable? {
        threw := true;
        return;
      }
      session.challenge := None;
      saved := session.State();
      replies := replies + [Reply(401, "bad challenge")];
      return;
    }
    if cd.kind != Str(WebAuthnGet) {
      if cd.kind.Unprintable? {
        threw := true;
        return;
      }
      replies := replies + [Reply(401, "bad webauthn type: " + Show(cd.kind))];
    }
    if cd.crossOrigin == Some(true) {
      threw := replies != [];
      replies := replies + [Reply(401, "crossOrigin logins not permitted")];
      if threw {
        return;
      }
    }
    if !OriginListed(cd.origin) && cd.origin.Unprintable? {
      threw := true;
      return;
    }
    if !OriginListed(cd.origin) && env.validateDomain {
      threw := replies != [];
      replies := replies + [Reply(401, "bad cdj origin: " + Show(cd.origin))];
      if threw {
        return;
      }
    }
    assert replies == ClientDataReplies(env.validateDomain, cd);
    if form.rawId !in db.passkeys {
      replies := replies + [Reply(401, "")];
      return;
    }
    var pk := db.passkeys[form.rawId];
    var key := ParseKey(env.crypto, pk.publicKeySpki);
    if key.Err? {
      threw := true;
      return;
    }
    var result := VerifyAuth(env.crypto, key.value, form.signature, form.authenticatorData, form.clientDataJson);
    if result.Err? {
      threw := true;
      return;
    }
    if !result.value {
      replies := replies + [Reply(401, "")];
      return;
    }
    var user := Owner(pk, db.usersByName);
    if user.None? {
      threw := replies != [];
      replies := replies + [Reply(200, "no userid?")];
      return;
    }
    session.userId := Some(user.value.id);
    if replies == [] {
      saved := session.State();
    }
    threw := replies != [];
    replies := replies + [Reply(200, "ok")];
  }

  // ---- properties of the login flow ----

  /** Without an issued challenge the request is refused with 400 and nothing changes. */
  lemma NoChallengeRejected(env: LoginEnv, passkeys: map<seq<byte>, Passkey>, usersByName: map<string, User>,
                            st: SessionState, form: LoginForm)
    requires st.challenge.None?
    ensures Login(env, passkeys, usersByName, st, form) == Outcome(st, [Reply(400, "")], false, st)
  {
  }

  /**
   * Everything that must hold for `POST /login` to record a user: an issued
   * challenge, client data that parses, echoes it and has a printable `type`
   * and `origin`, a known passkey whose key verifies the assertion, and an
   * existing owner.
   */
  predicate Authorized(env: LoginEnv, passkeys: map<seq<byte>, Passkey>, usersByName: map<string, User>,
                       st: SessionState, form: LoginForm)
  {
    && st.challenge.Some?
    && env.parseClientData(form.clientDataJson).Some?
    && env.parseClientData(form.clientDataJson).value.challenge == Str(ToUrlSafe(st.challenge.value))
    && Printable(env.parseClientData(form.clientDataJson).value)
    && SignatureAccepted(env.crypto, passkeys, form)
    && Owner(passkeys[form.rawId], usersByName).Some?
  }

  /** The user an authorized request logs in. */
  function LoggedInId(passkeys: map<seq<byte>, Passkey>, usersByName: map<string, User>, form: LoginForm): string
    requires form.rawId in passkeys && Owner(passkeys[form.rawId], usersByName).Some?
  {
    Owner(passkeys[form.rawId], usersByName).value.id
  }

  /**
   * A client data challenge that differs from the session's burns the
   * challenge: the reply is 401, and the same request sent again gets 400.
   * A challenge whose string conversion throws makes the mismatch log throw
   * first, so nothing is sent and nothing changes.
   */
  lemma MismatchBurnsChallenge(env: LoginEnv, passkeys: map<seq<byte>, Passkey>, usersByName: map<string, User>,
                               st: SessionState, form: LoginForm)
    requires st.challenge.Some? && env.parseClientData(form.clientDataJson).Some?
    requires env.parseClientData(form.clientDataJson).value.challenge != Str(ToUrlSafe(st.challenge.value))
    ensures var o := Login(env, passkeys, usersByName, st, form);
      if env.parseClientData(form.clientDataJson).value.challenge.Unprintable? then o == Outcome(st, [], true, st)
      else
        && o == Outcome(st.(challenge := None), [Reply(401, "bad challenge")], false, st.(challenge := None))
        && Login(env, passkeys, usersByName, o.saved, form) == Outcome(o.saved, [Reply(400, "")], false, o.saved)
  {
  }

  /** The challenge changes only when it is burnt by a mismatch; a successful login leaves it in place. */
  lemma ChallengeKeptUnlessMismatch(env: LoginEnv, passkeys: map<seq<byte>, Passkey>, usersByName: map<string, User>,
                                    st: SessionState, form: LoginForm)
    ensures var o := Login(env, passkeys, usersByName, st, form);
      o.session.challenge != st.challenge <==>
        && st.challenge.Some?
        && env.parseClientData(form.clientDataJson).Some?
        && env.parseClientData(form.clientDataJson).value.challenge != Str(ToUrlSafe(st.challenge.value))
        && !env.parseClientData(form.clientDataJson).value.challenge.Unprintable?
  {
  }

  /**
   * The in-memory session's user changes only for an authorized request. An
   * authorized request records the passkey owner's id unless two checks
   * failed, the second one's `send` having thrown first; it throws exactly
   * when some check failed.
   */
  lemma UserRecordedOnlyWhenAuthorized(env: LoginEnv, passkeys: map<seq<byte>, Passkey>,
                                       usersByName: map<string, User>, st: SessionState, form: LoginForm)
    ensures var o := Login(env, passkeys, usersByName, st, form);
      o.session.userId != st.userId ==> Authorized(env, passkeys, usersByName, st, form)
    ensures var o := Login(env, passkeys, usersByName, st, form);
      Authorized(env, passkeys, usersByName, st, form) ==>
        && o.session == (if FailedChecks(env, form) <= 1 then st.(userId := Some(LoggedInId(passkeys, usersByName, form)))
                         else st)
        && (o.threw <==> FailedChecks(env, form) > 0)
  {
  }

  /**
   * The client sees `ok` exactly when the request is authorized and its client
   * data passes the type, cross-origin and (when on) origin checks.
   */
  lemma OkExactlyWhenAllChecksPass(env: LoginEnv, passkeys: map<seq<byte>, Passkey>,
                                   usersByName: map<string, User>, st: SessionState, form: LoginForm)
    ensures var o := Login(env, passkeys, usersByName, st, form);
      Response(o) == Some(Reply(200, "ok")) <==>
        && Authorized(env, passkeys, usersByName, st, form)
        && ClientDataAcceptable(env.validateDomain, env.parseClientData(form.clientDataJson).value)
    ensures var o := Login(env, passkeys, usersByName, st, form);
      Authorized(env, passkeys, usersByName, st, form)
      && ClientDataAcceptable(env.validateDomain, env.parseClientData(form.clientDataJson).value)
      ==> o.replies == [Reply(200, "ok")]
  {
  }

  /**
   * The type, cross-origin and origin checks reply 401 without returning: an
   * authorized request whose client data fails them is answered 401, the store
   * keeps the session as it came in (written when the 401 ended), and the
   * handler throws. With exactly one failing check it gets as far as setting
   * the user on the request's in-memory session before the `ok` send throws.
   */
  lemma RefusedLoginOnlyInMemory(env: LoginEnv, passkeys: map<seq<byte>, Passkey>,
                                 usersByName: map<string, User>, st: SessionState, form: LoginForm)
    requires Authorized(env, passkeys, usersByName, st, form)
    requires !ClientDataAcceptable(env.validateDomain, env.parseClientData(form.clientDataJson).value)
    ensures var o := Login(env, passkeys, usersByName, st, form);
      && Response(o).Some? && Response(o).value.status == 401
      && o.saved == st && o.threw
    ensures FailedChecks(env, form) == 1 ==>
      Login(env, passkeys, usersByName, st, form).session.userId == Some(LoggedInId(passkeys, usersByName, form))
  {
  }

  /**
   * The stored session records a new user only when the client is answered
   * `ok`, and an `ok` leaves the stored and the in-memory session logged in
   * as the passkey's owner.
   */
  lemma StoredLoginOnlyWithOk(env: LoginEnv, passkeys: map<seq<byte>, Passkey>,
                              usersByName: map<string, User>, st: SessionState, form: LoginForm)
    ensures var o := Login(env, passkeys, usersByName, st, form);
      o.saved.userId != st.userId ==> Response(o) == Some(Reply(200, "ok"))
    ensures var o := Login(env, passkeys, usersByName, st, form);
      Response(o) == Some(Reply(200, "ok")) ==>
        && Authorized(env, passkeys, usersByName, st, form)
        && o.saved == o.session == st.(userId := Some(LoggedInId(passkeys, usersByName, form)))
  {
  }

  /**
   * A known passkey that verifies but whose row names no existing user is
   * answered `no userid?` with status 200, after the one 401 a failing check
   * may have sent (the `send` then throws), and neither session changes. A
   * `type` or `origin` whose conversion throws ends the handler earlier.
   */
  lemma MissingOwnerAnswersNoUserid(env: LoginEnv, passkeys: map<seq<byte>, Passkey>,
                                    usersByName: map<string, User>, st: SessionState, form: LoginForm)
    requires st.challenge.Some? && env.parseClientData(form.clientDataJson).Some?
    requires env.parseClientData(form.clientDataJson).value.challenge == Str(ToUrlSafe(st.challenge.value))
    requires SignatureAccepted(env.crypto, passkeys, form)
    requires Owner(passkeys[form.rawId], usersByName).None?
    ensures var o := Login(env, passkeys, usersByName, st, form);
      o.session == st && o.saved == st
    ensures var o := Login(env, passkeys, usersByName, st, form);
      Printable(env.parseClientData(form.clientDataJson).value) && FailedChecks(env, form) <= 1 ==>
        && o.replies == ClientDataReplies(env.validateDomain, env.parseClientData(form.clientDataJson).value)
                        + [Reply(200, "no userid?")]
        && (o.threw <==> FailedChecks(env, form) == 1)
    ensures !Printable(env.parseClientData(form.clientDataJson).value) ==> Login(env, passkeys, usersByName, st, form).threw
    ensures ClientDataAcceptable(env.validateDomain, env.parseClientData(form.clientDataJson).value) && Printable(env.parseClientData(form.clientDataJson).value) ==>
      Response(Login(env, passkeys, usersByName, st, form)) == Some(Reply(200, "no userid?"))
  {
  }

  /**
   * A single failing check does not guard the request's in-memory session:
   * whatever else the client data says, and whether origins are validated, as
   * long as at most one check fails and the printed values convert, the
   * session ends the same. Only the responses, whether the handler throws, and
   * so what the store keeps, differ. A value whose conversion throws does
   * guard it: the session's user then stays as it came in.
   */
  lemma ChecksDoNotGuardSession(env1: LoginEnv, env2: LoginEnv, passkeys: map<seq<byte>, Passkey>,
                                usersByName: map<string, User>, st: SessionState, form: LoginForm)
    requires env1.crypto == env2.crypto
    requires env1.parseClientData(form.clientDataJson).Some? && env2.parseClientData(form.clientDataJson).Some?
    requires env1.parseClientData(form.clientDataJson).value.challenge
          == env2.parseClientData(form.clientDataJson).value.challenge
    requires FailedChecks(env1, form) <= 1 && FailedChecks(env2, form) <= 1
    ensures var o1, o2 := Login(env1, passkeys, usersByName, st, form), Login(env2, passkeys, usersByName, st, form);
      (Printable(env1.parseClientData(form.clientDataJson).value)
       && Printable(env2.parseClientData(form.clientDataJson).value)) ==> o1.session == o2.session
    ensures !Printable(env1.parseClientData(form.clientDataJson).value) ==>
      Login(env1, passkeys, usersByName, st, form).session.userId == st.userId
  {
  }

  /**
   * With `VALIDATE_DOMAIN` off an origin that converts to a string makes no
   * difference at all, not even to the responses; one that does not makes
   * the log of an unlisted origin throw (`UnprintableValueThrows`).
   */
  lemma OriginIgnoredUnlessValidating(env1: LoginEnv, env2: LoginEnv, passkeys: map<seq<byte>, Passkey>,
                                      usersByName: map<string, User>, st: SessionState, form: LoginForm)
    requires !env1.validateDomain && !env2.validateDomain && env1.crypto == env2.crypto
    requires env1.parseClientData(form.clientDataJson).Some? && env2.parseClientData(form.clientDataJson).Some?
    requires env2.parseClientData(form.clientDataJson)
          == Some(env1.parseClientData(form.clientDataJson).value.(origin := env2.parseClientData(form.clientDataJson).value.origin))
    ensures (!env1.parseClientData(form.clientDataJson).value.origin.Unprintable?
             && !env2.parseClientData(form.clientDataJson).value.origin.Unprintable?) ==>
      Login(env1, passkeys, usersByName, st, form) == Login(env2, passkeys, usersByName, st, form)
  {
  }

  /**
   * With `VALIDATE_DOMAIN` on, a request from an unlisted origin that gets past
   * the challenge is answered 401, whatever follows, unless a printed value
   * fails to convert and the handler throws with the session unchanged.
   */
  lemma UnlistedOriginAnswered401(env: LoginEnv, passkeys: map<seq<byte>, Passkey>,
                                  usersByName: map<string, User>, st: SessionState, form: LoginForm)
    requires env.validateDomain && st.challenge.Some?
    requires env.parseClientData(form.clientDataJson).Some?
    requires env.parseClientData(form.clientDataJson).value.challenge == Str(ToUrlSafe(st.challenge.value))
    requires !OriginListed(env.parseClientData(form.clientDataJson).value.origin)
    ensures var o := Login(env, passkeys, usersByName, st, form);
      Response(o).Some? ==> Response(o).value.status == 401
    ensures Printable(env.parseClientData(form.clientDataJson).value) ==> Response(Login(env, passkeys, usersByName, st, form)).Some?
    ensures var o := Login(env, passkeys, usersByName, st, form);
      !Printable(env.parseClientData(form.clientDataJson).value) ==> o.threw && o.session == st && o.saved == st
  {
  }

  /**
   * A request that gets past the challenge with the wrong `type` is first
   * answered 401 naming the value as a template literal prints it: `undefined`
   * when absent, the text itself for a string, `5` or `null` for a number or
   * `null`. A value whose conversion throws ends the handler before any reply.
   */
  lemma TypeRejectionShowsValue(env: LoginEnv, passkeys: map<seq<byte>, Passkey>,
                                usersByName: map<string, User>, st: SessionState, form: LoginForm)
    requires st.challenge.Some? && env.parseClientData(form.clientDataJson).Some?
    requires env.parseClientData(form.clientDataJson).value.challenge == Str(ToUrlSafe(st.challenge.value))
    requires env.parseClientData(form.clientDataJson).value.kind != Str(WebAuthnGet)
    ensures var o := Login(env, passkeys, usersByName, st, form);
      if env.parseClientData(form.clientDataJson).value.kind.Unprintable? then o == Outcome(st, [], true, st)
      else Response(o) == Some(Reply(401, "bad webauthn type: " + Show(env.parseClientData(form.clientDataJson).value.kind)))
  {
  }

  /**
   * With `VALIDATE_DOMAIN` on, a request whose type and cross-origin flag pass
   * but whose origin is not a listed domain is first answered 401 naming the
   * origin as a template literal prints it. An origin whose conversion throws
   * ends the handler before any reply.
   */
  lemma OriginRejectionShowsValue(env: LoginEnv, passkeys: map<seq<byte>, Passkey>,
                                  usersByName: map<string, User>, st: SessionState, form: LoginForm)
    requires env.validateDomain && st.challenge.Some? && env.parseClientData(form.clientDataJson).Some?
    requires env.parseClientData(form.clientDataJson).value.challenge == Str(ToUrlSafe(st.challenge.value))
    requires env.parseClientData(form.clientDataJson).value.kind == Str(WebAuthnGet)
    requires env.parseClientData(form.clientDataJson).value.crossOrigin != Some(true)
    requires !OriginListed(env.parseClientData(form.clientDataJson).value.origin)
    ensures var o := Login(env, passkeys, usersByName, st, form);
      if env.parseClientData(form.clientDataJson).value.origin.Unprintable? then o == Outcome(st, [], true, st)
      else Response(o) == Some(Reply(401, "bad cdj origin: " + Show(env.parseClientData(form.clientDataJson).value.origin)))
  {
  }

  /**
   * Past the challenge, a `type` or `origin` whose string conversion throws
   * ends the handler with a throw before the passkey lookup, whether or not
   * origins are validated: at the type check before anything is sent, or at
   * the origin check after the first two checks' 401s (the second of which
   * already threw). Neither session changes.
   */
  lemma UnprintableValueThrows(env: LoginEnv, passkeys: map<seq<byte>, Passkey>,
                               usersByName: map<string, User>, st: SessionState, form: LoginForm)
    requires st.challenge.Some? && env.parseClientData(form.clientDataJson).Some?
    requires env.parseClientData(form.clientDataJson).value.challenge == Str(ToUrlSafe(st.challenge.value))
    requires !Printable(env.parseClientData(form.clientDataJson).value)
    ensures Login(env, passkeys, usersByName, st, form)
         == Outcome(st, if env.parseClientData(form.clientDataJson).value.kind.Unprintable? then [] else TypeAndCrossOriginReplies(env.parseClientData(form.clientDataJson).value), true, st)
  {
  }

  /**
   * The challenge is not consumed by a success: the same assertion, sent again
   * on the session the store kept, is accepted again with the same responses.
   */
  lemma AcceptedAssertionReplays(env: LoginEnv, passkeys: map<seq<byte>, Passkey>,
                                 usersByName: map<string, User>, st: SessionState, form: LoginForm)
    requires Authorized(env, passkeys, usersByName, st, form)
    ensures var o := Login(env, passkeys, usersByName, st, form);
      && Authorized(env, passkeys, usersByName, o.saved, form)
      && Login(env, passkeys, usersByName, o.saved, form).saved == o.saved
      && Login(env, passkeys, usersByName, o.saved, form).replies == o.replies
  {
    UserRecordedOnlyWhenAuthorized(env, passkeys, usersByName, st, form);
  }

  /**
   * A browser that signs over a challenge it got from `GET /login` echoes it
   * in base64url, which is what the handler compares against; an echo of an
   * earlier challenge, after a fresh one was issued, is a mismatch.
   */
  lemma IssuedChallengeMatchesEcho(random: seq<byte>, earlier: seq<byte>)
    requires |random| == 32 && |earlier| == 32 && earlier != random
    ensures Str(ToUrlSafe(Base64.Encode(random))) == Str(Base64.EncodeUrl(random))
    ensures Str(Base64.EncodeUrl(earlier)) != Str(ToUrlSafe(Base64.Encode(random)))
  {
    UrlSafeOfEncoding(random);
    UrlSafeOfEncoding(earlier);
    ReissueInvalidatesEcho(earlier, random);
  }
}
