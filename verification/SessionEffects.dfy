/**
  What every step does, in terms of what it presents and of the state alone:
  who gets in, with which password, which operations are permitted, and what
  becomes of each column of each row.
 */
module SessionEffects {
  import opened Wrappers
  import opened Session
  import opened SessionLaws
  import opened SessionTheorems

  // ---------- getting in ----------

  predicate Enabled(s: State, u: UserId) { u in s.users && s.users[u].enabled }

  /** A login without a request succeeds exactly for an enabled, verified user with his password and second factor. */
  lemma PasswordLoginExact(now: Instant, s: State, d: LoginData, s': State, r: Response)
    requires Step(now, s, Login(d), s', r) && d.request.None?
    ensures r.Tokens? <==> Enabled(s, d.user) && s.users[d.user].secret == Some(d.password) && d.verified && d.secondFactor
  {
  }

  /** The request is the user's, approved, asked less than five minutes ago from this address with this code. */
  predicate Redeemable(s: State, now: Instant, u: UserId, id: nat, ip: string, code: string) {
    && id in s.requests && s.requests[id].user == u && s.requests[id].approved == Some(true)
    && now - s.requests[id].created < 300_000_000_000 && s.requests[id].ip == ip && s.requests[id].accessCode == code
  }

  /** A login with a request needs no password, but a request that can be redeemed with what is presented. */
  lemma RequestLoginExact(now: Instant, s: State, d: LoginData, s': State, r: Response)
    requires Step(now, s, Login(d), s', r) && d.request.Some?
    ensures r.Tokens? <==>
      Enabled(s, d.user) && Redeemable(s, now, d.user, d.request.value, d.ip, d.password) && d.verified && d.secondFactor
  {
  }

  lemma ApiKeyLoginExact(now: Instant, s: State, u: UserId, d: DeviceId, kind: int, key: string, s': State, r: Response)
    requires Step(now, s, LoginApiKey(u, d, kind, key), s', r)
    ensures r.Tokens? <==> Enabled(s, u) && s.users[u].apiKey == Some(key)
    ensures r.Tokens? ==> r.refresh.None?
  {
  }

  /** A refresh succeeds exactly with a token some device holds, in a session opened with a password. */
  lemma RefreshExact(now: Instant, s: State, token: nat, m: Method, s': State, r: Response)
    requires Inv(s, now) && Step(now, s, Refresh(token, m), s', r)
    ensures s' == s && (r.Tokens? <==> m.Password? && exists k :: k in s.devices && s.devices[k].token == token)
    ensures r.Tokens? ==>
      var k := (r.access.user, r.access.device); k in s.devices && s.devices[k].token == token && r.refresh == Some(token)
  {
    assert OwnersEnabled(s);
  }

  /** Whoever a login is for gets the session, on the device it named, which is added with its kind if it was not there. */
  lemma LoginOpensOwnSession(now: Instant, s: State, e: Event, s': State, r: Response)
    requires Inv(s, now) && (e.Login? || e.LoginApiKey?) && Step(now, s, e, s', r) && r.Tokens?
    ensures var (u, d, kind) := if e.Login? then (e.data.user, e.data.device, e.data.kind) else (e.user, e.device, e.kind);
      && r.access.user == u && r.access.device == d && (u, d) in s'.devices
      && (e.Login? ==> r.refresh == Some(s'.devices[(u, d)].token))
      && s' == s.(devices := s'.devices, next := s'.next) && s'.devices.Keys == s.devices.Keys + {(u, d)}
      && (forall k :: k in s.devices ==> s'.devices[k] == s.devices[k])
      && ((u, d) !in s.devices ==> s'.devices[(u, d)].kind == kind && forall k :: k in s.devices ==> s.devices[k].token != s'.devices[(u, d)].token)
  {
    assert TokensSound(s);
  }

  /** Tokens handed out are good: the access token passes the stamp check on every route, the refresh token can be exchanged. */
  lemma TokensWork(now: Instant, s: State, e: Event, s': State, r: Response, route: Option<string>)
    requires Inv(s, now) && Step(now, s, e, s', r) && r.Tokens?
    ensures Authenticate(now, s', r.access, route) == (s', true)
    ensures r.refresh.Some? ==> var k := (r.access.user, r.access.device); k in s'.devices && s'.devices[k].token == r.refresh.value
  {
    hide StampReset;
    assert OwnersEnabled(s);
    match e
    case Call(_, _) =>
    case Disable(_) =>
    case _ =>
  }

  // ---------- permitted operations ----------

  /** What the stamp check demands, spelled out. */
  predicate Passes(now: Instant, s: State, c: Claims, route: Option<string>) {
    && (c.user, c.device) in s.devices && c.user in s.users
    && (|| s.users[c.user].stamp == c.stamp
        || (&& s.users[c.user].exemption.Some? && route.Some?
            && s.users[c.user].exemption.value.stamp == c.stamp
            && route.value in s.users[c.user].exemption.value.routes
            && Timestamp(now) <= s.users[c.user].exemption.value.expire))
  }

  /** What the operation itself demands. */
  predicate Permitted(s: State, c: Claims, op: Operation)
    requires c.user in s.users
  {
    var user := s.users[c.user];
    match op
    case Read(_) => true
    case ChangePassword(password, _) => user.secret == Some(password)
    case InitPassword(_, _) => !user.initialized
    case ChangeKdf(password, _, accepted) => user.secret == Some(password) && accepted
    case RotateKeys(password, _, accepted) => user.secret == Some(password) && accepted
    case ChangeEmail(password, _, accepted) => user.secret == Some(password) && accepted
    case PostKeys => true
    case NewStamp(proof) => Shown(user, proof)
    case NewApiKey(proof, _, _) => Shown(user, proof)
    case Answer(id, device, _, _, _) =>
      id in s.requests && s.requests[id].user == c.user && s.requests[id].approved.None? && device == c.device
  }

  predicate Shown(user: User, proof: Proof) {
    || (proof.MasterPassword? && user.secret == Some(proof.text))
    || (proof.OneTimeCode? && proof.accepted)
  }

  /** An operation is granted exactly if its claims pass and it is permitted; denied, it changes no more than an expired exception. */
  lemma OperationsExact(now: Instant, s: State, c: Claims, op: Operation, s': State, r: Response)
    requires Step(now, s, Call(c, op), s', r)
    ensures r == Granted || r == Denied
    ensures r == Granted <==> Passes(now, s, c, Route(op)) && Permitted(s, c, op)
    ensures r == Denied ==> s' == s || (c.user in s.users && s' == s.(users := s.users[c.user := s.users[c.user].(exemption := None)]))
  {
    hide StampReset;
    StampRule(now, s, c, Route(op));
  }

  /** Registration succeeds exactly where it is allowed, for a new user or one invited who has no password yet; refused, it does nothing. */
  lemma RegisterExact(now: Instant, s: State, existing: Option<UserId>, allowed: bool, password: string, withKeys: bool, s': State, r: Response)
    requires Step(now, s, Register(existing, allowed, password, withKeys), s', r)
    ensures r == Granted <==>
      allowed && (existing.Some? ==> existing.value in s.users && s.users[existing.value].secret.None?)
    ensures r != Granted ==> r == Denied && s' == s
  {
    hide StampReset;
  }

  /** What an administrator asks of a user succeeds exactly if there is such a user, and otherwise does nothing. */
  lemma AdministrationExact(now: Instant, s: State, e: Event, s': State, r: Response)
    requires (e.Disable? || e.Enable? || e.Deauthorize? || e.DeleteUser?) && Step(now, s, e, s', r)
    ensures r == Granted <==> e.user in s.users
    ensures r != Granted ==> r == Denied && s' == s
  {
    hide StampReset;
  }

  // ---------- what becomes of a user's row ----------

  /** Whose password a step sets, and to what, if it is granted. */
  function SecretSet(s: State, e: Event): Option<(UserId, string)> {
    match e
    case Register(existing, _, password, _) => Some((if existing.Some? then existing.value else s.next, password))
    case Call(c, ChangePassword(_, new_)) => Some((c.user, new_))
    case Call(c, InitPassword(new_, _)) => Some((c.user, new_))
    case Call(c, ChangeKdf(_, new_, _)) => Some((c.user, new_))
    case Call(c, RotateKeys(_, new_, _)) => Some((c.user, new_))
    case Call(c, ChangeEmail(_, new_, _)) => Some((c.user, new_))
    case _ => None
  }

  /** The steps that give this user a new stamp, if they are granted. */
  predicate Resets(e: Event, u: UserId) {
    match e
    case Register(existing, _, _, _) => existing == Some(u)
    case Call(c, op) =>
      c.user == u && (op.ChangePassword? || op.ChangeKdf? || op.RotateKeys? || op.ChangeEmail? || op.NewStamp?)
    case Disable(v) => v == u
    case Deauthorize(v) => v == u
    case _ => false
  }

  function SecretAfter(s: State, e: Event, r: Response, u: UserId, before: Option<string>): Option<string> {
    if r == Granted && SecretSet(s, e).Some? && SecretSet(s, e).value.0 == u then Some(SecretSet(s, e).value.1) else before
  }

  function EnabledAfter(e: Event, r: Response, u: UserId, before: bool): bool {
    if r == Granted && e == Disable(u) then false else if r == Granted && e == Enable(u) then true else before
  }

  function InitializedAfter(e: Event, r: Response, u: UserId, before: bool): bool {
    if r != Granted then before else
    match e
    case Register(Some(v), _, _, withKeys) => before || (v == u && withKeys)
    case Call(c, InitPassword(_, withKeys)) => before || (c.user == u && withKeys)
    case Call(c, PostKeys) => before || c.user == u
    case _ => before
  }

  /** An API key is replaced on request, and made when there is none. */
  function ApiKeyAfter(e: Event, r: Response, u: UserId, before: Option<string>): Option<string> {
    if r == Granted && e.Call? && e.claims.user == u && e.op.NewApiKey? && (e.op.rotate || before.None?)
    then Some(e.op.generated) else before
  }

  /** The exception a granted step makes for the stamp it found, for the next two minutes. */
  function ExceptionMade(now: Instant, e: Event, u: UserId, stamp: nat): Option<StampException> {
    if !e.Call? || e.claims.user != u then None
    else if e.op.ChangePassword? then
      Some(StampException(["post_rotatekey", "get_contacts", "get_public_keys", "get_api_webauthn"], stamp, Timestamp(now) + 120))
    else if e.op.InitPassword? then Some(StampException(["revision_date"], stamp, Timestamp(now) + 120))
    else None
  }

  ghost predicate ExceptionAfter(now: Instant, e: Event, r: Response, u: UserId, before: User, after: User) {
    if r == Granted && ExceptionMade(now, e, u, before.stamp).Some? then
      after.exemption == ExceptionMade(now, e, u, before.stamp)
    else
      (|| after.exemption == before.exemption
       || (r == Denied && e.Call? && e.claims.user == u && after.exemption.None? && before.exemption.Some?
           && Timestamp(now) > before.exemption.value.expire))
  }

  /** Every column of an existing user's row after a step. */
  ghost predicate RowAfter(now: Instant, s: State, e: Event, s': State, r: Response, u: UserId)
    requires u in s.users && u in s'.users
  {
    var a, b := s.users[u], s'.users[u];
    && b.secret == SecretAfter(s, e, r, u, a.secret)
    && b.enabled == EnabledAfter(e, r, u, a.enabled)
    && b.initialized == InitializedAfter(e, r, u, a.initialized)
    && b.apiKey == ApiKeyAfter(e, r, u, a.apiKey)
    && ExceptionAfter(now, e, r, u, a, b)
    && (b.stamp != a.stamp <==> r == Granted && Resets(e, u))
  }

  /** A row that was not there: invited, or registered with the password given. */
  ghost predicate NewRow(s: State, e: Event, s': State, r: Response, u: UserId)
    requires u in s'.users
  {
    var b := s'.users[u];
    && u == s.next && r == Granted && (e.Invite? || (e.Register? && e.existing.None?))
    && b.enabled && b.apiKey.None? && b.exemption.None?
    && b.secret == (if e.Register? then Some(e.password) else None) && b.initialized == (e.Register? && e.withKeys)
  }

  ghost predicate RowsAfter(now: Instant, s: State, e: Event, s': State, r: Response) {
    && (forall u :: u in s.users ==> (u in s'.users <==> !(e == DeleteUser(u) && r == Granted)))
    && (forall u :: u in s.users && u in s'.users ==> RowAfter(now, s, e, s', r, u))
    && (forall u :: u in s'.users && u !in s.users ==> NewRow(s, e, s', r, u))
  }

  /** The one user whose row a step may change. */
  predicate About(e: Event, u: UserId) {
    match e
    case Call(c, _) => c.user == u
    case Register(existing, _, _, _) => existing == Some(u)
    case Disable(v) => v == u
    case Enable(v) => v == u
    case Deauthorize(v) => v == u
    case _ => false
  }

  lemma OneRow(now: Instant, s: State, e: Event, s': State, r: Response, u: UserId)
    requires About(e, u) && u in s.users && u in s'.users && s'.users == s.users[u := s'.users[u]]
    requires RowAfter(now, s, e, s', r, u)
    ensures RowsAfter(now, s, e, s', r)
  {
    forall v | v in s.users && v != u ensures RowAfter(now, s, e, s', r, v) {
    }
  }

  /** A stamp reset on top of a new password or exception. */
  lemma ResetRow(now: Instant, s: State, t: State, c: Claims, op: Operation, s': State, u: UserId)
    requires u == c.user && u in s.users && s.users[u].stamp < s.next && StampReset(s, t, u)
    requires op.NewStamp? && s'.users == t.users
    ensures u in s'.users && s'.users == s.users[u := s'.users[u]] && RowAfter(now, s, Call(c, op), s', Granted, u)
  {
    ResetShape(s, t, u);
    hide StampReset;
  }

  lemma QuietRow(now: Instant, s: State, c: Claims, op: Operation, s': State, r: Response)
    requires c.user in s.users && s.users[c.user].stamp < s.next && Quiet(op) && Operated(now, s, c, op, s', r)
    ensures c.user in s'.users && s'.users == s.users[c.user := s'.users[c.user]] && RowAfter(now, s, Call(c, op), s', r, c.user)
  {
    hide StampReset;
    TwoMinutes(now);
  }

  /** Operations that reset the stamp, or only set the password and the exception. */
  lemma OperatedRow(now: Instant, s: State, c: Claims, op: Operation, s': State, r: Response)
    requires c.user in s.users && s.users[c.user].stamp < s.next && Operated(now, s, c, op, s', r)
    ensures c.user in s'.users && s'.users == s.users[c.user := s'.users[c.user]] && RowAfter(now, s, Call(c, op), s', r, c.user)
  {
    hide StampReset;
    TwoMinutes(now);
    var u := c.user;
    if Quiet(op) {
      QuietRow(now, s, c, op, s', r);
    } else if r == Granted {
      match op
      case ChangePassword(_, new_) => ResetShape(WithException(WithSecret(s, u, new_), now, u, AFTER_PASSWORD), s', u);
      case ChangeKdf(_, new_, _) => ResetShape(WithSecret(s, u, new_), s', u);
      case RotateKeys(_, new_, _) => ResetShape(WithSecret(s, u, new_), s', u);
      case ChangeEmail(_, new_, _) => ResetShape(WithSecret(s, u, new_), s', u);
      case NewStamp(_) =>
        var t :| StampReset(s, t, u) && s' == WithoutDevices(t, u);
        ResetRow(now, s, t, c, op, s', u);
    }
  }

  lemma CallRows(now: Instant, s: State, c: Claims, op: Operation, s': State, r: Response)
    requires Sound(s, now) && Step(now, s, Call(c, op), s', r)
    ensures RowsAfter(now, s, Call(c, op), s', r)
  {
    assert c.user in s.users ==> s.users[c.user].stamp < s.next;
    hide Operated, Sound;
    StampRule(now, s, c, Route(op));
    if Authenticate(now, s, c, Route(op)).1 {
      OperatedRow(now, s, c, op, s', r);
      hide RowAfter, RowsAfter, Step;
      OneRow(now, s, Call(c, op), s', r, c.user);
    }
  }

  lemma RegisteredRow(now: Instant, s: State, e: Event, s': State, u: UserId)
    requires e.Register? && e.existing == Some(u) && u in s.users && s.users[u].stamp < s.next
    requires StampReset(SetUser(s, u, s.users[u].(secret := Some(e.password), initialized := s.users[u].initialized || e.withKeys)), s', u)
    ensures RowsAfter(now, s, e, s', Granted)
  {
    ResetShape(SetUser(s, u, s.users[u].(secret := Some(e.password), initialized := s.users[u].initialized || e.withKeys)), s', u);
    hide StampReset;
    assert RowAfter(now, s, e, s', Granted, u);
    hide RowAfter, RowsAfter;
    OneRow(now, s, e, s', Granted, u);
  }

  lemma NewUserRows(now: Instant, s: State, e: Event, s': State)
    requires (e.Invite? || (e.Register? && e.existing.None?)) && s.next !in s.users && Step(now, s, e, s', Granted)
    ensures RowsAfter(now, s, e, s', Granted)
  {
    hide StampReset;
  }

  lemma RefusedRows(now: Instant, s: State, e: Event)
    requires e.Register?
    ensures RowsAfter(now, s, e, s, Denied)
  {
  }

  lemma RegisterRows(now: Instant, s: State, e: Event, s': State, r: Response)
    requires Sound(s, now) && (e.Invite? || e.Register?) && Step(now, s, e, s', r)
    ensures RowsAfter(now, s, e, s', r)
  {
    assert s.next !in s.users;
    assert forall u :: u in s.users ==> s.users[u].stamp < s.next;
    hide StampReset, Sound, RowsAfter;
    if r == Denied {
      RefusedRows(now, s, e);
    } else if e.Register? && e.existing.Some? {
      RegisteredRow(now, s, e, s', e.existing.value);
    } else {
      NewUserRows(now, s, e, s');
    }
  }

  lemma DisableRows(now: Instant, s: State, u: UserId, s': State, r: Response)
    requires Sound(s, now) && u in s.users && Step(now, s, Disable(u), s', r)
    ensures RowsAfter(now, s, Disable(u), s', r)
  {
    var t :| StampReset(s, t, u) && s' == WithoutDevices(SetUser(t, u, t.users[u].(enabled := false)), u);
    assert s.users[u].stamp < s.next && r == Granted;
    hide Sound, Step;
    DisabledRow(now, s, t, s', u);
  }

  lemma DisabledRow(now: Instant, s: State, t: State, s': State, u: UserId)
    requires u in s.users && s.users[u].stamp < s.next && StampReset(s, t, u)
    requires u in t.users ==> s'.users == t.users[u := t.users[u].(enabled := false)]
    ensures RowsAfter(now, s, Disable(u), s', Granted)
  {
    ResetShape(s, t, u);
    hide StampReset;
    assert RowAfter(now, s, Disable(u), s', Granted, u);
    hide RowAfter, RowsAfter;
    OneRow(now, s, Disable(u), s', Granted, u);
  }

  lemma DeauthorizeRows(now: Instant, s: State, u: UserId, s': State, r: Response)
    requires Sound(s, now) && u in s.users && Step(now, s, Deauthorize(u), s', r)
    ensures RowsAfter(now, s, Deauthorize(u), s', r)
  {
    hide StampReset;
    ResetShape(WithoutDevices(s, u), s', u);
    assert s.users[u].stamp < s.next;
    hide Sound;
    assert RowAfter(now, s, Deauthorize(u), s', r, u);
    hide RowAfter, RowsAfter;
    OneRow(now, s, Deauthorize(u), s', r, u);
  }

  /** Every column of every user's row after every step. */
  lemma RowsExact(now: Instant, s: State, e: Event, s': State, r: Response)
    requires Inv(s, now) && Step(now, s, e, s', r)
    ensures RowsAfter(now, s, e, s', r)
  {
    hide Sound, RowAfter, StampReset, Operated;
    match e
    case Call(c, op) => CallRows(now, s, c, op, s', r);
    case Invite => RegisterRows(now, s, e, s', r);
    case Register(_, _, _, _) => RegisterRows(now, s, e, s', r);
    case Disable(u) => if u in s.users { DisableRows(now, s, u, s', r); } else { SameRows(now, s, e, s', r); }
    case Deauthorize(u) => if u in s.users { DeauthorizeRows(now, s, u, s', r); } else { SameRows(now, s, e, s', r); }
    case Enable(u) => if u in s.users { EnableRows(now, s, u, s', r); } else { SameRows(now, s, e, s', r); }
    case DeleteUser(u) => DeleteRows(now, s, u, s', r);
    case _ => SameRows(now, s, e, s', r);
  }

  lemma SameRows(now: Instant, s: State, e: Event, s': State, r: Response)
    requires s'.users == s.users && !e.Call? && !e.Invite? && !e.Register?
    requires e.Disable? || e.Enable? || e.Deauthorize? || e.DeleteUser? ==> r == Denied
    ensures RowsAfter(now, s, e, s', r)
  {
  }

  lemma EnableRows(now: Instant, s: State, u: UserId, s': State, r: Response)
    requires u in s.users && Step(now, s, Enable(u), s', r)
    ensures RowsAfter(now, s, Enable(u), s', r)
  {
    assert RowAfter(now, s, Enable(u), s', r, u);
    hide RowAfter, RowsAfter;
    OneRow(now, s, Enable(u), s', r, u);
  }

  lemma DeleteRows(now: Instant, s: State, u: UserId, s': State, r: Response)
    requires Step(now, s, DeleteUser(u), s', r)
    ensures RowsAfter(now, s, DeleteUser(u), s', r)
  {
  }

  // ---------- the password over a run ----------

  /** The step was granted and set this user's password. */
  predicate SetsSecret(s: State, e: Event, r: Response, u: UserId) {
    r == Granted && SecretSet(s, e).Some? && SecretSet(s, e).value.0 == u
  }

  lemma SecretStep(now: Instant, s: State, e: Event, s': State, r: Response, u: UserId)
    requires RowsAfter(now, s, e, s', r) && s.next <= s'.next
    ensures u in s'.users && u < s.next && !SetsSecret(s, e, r, u) ==> u in s.users && s'.users[u].secret == s.users[u].secret
    ensures u in s'.users && SetsSecret(s, e, r, u) ==> s'.users[u].secret == Some(SecretSet(s, e).value.1)
  {
  }

  lemma SetterIsKnown(now: Instant, s: State, e: Event, s': State, r: Response, u: UserId)
    requires Inv(s, now) && Evolves(now, s, s') && Step(now, s, e, s', r) && SetsSecret(s, e, r, u)
    ensures u < s'.next
  {
    hide Operated, StampReset;
    assert forall v :: v in s.users ==> v < s.next;
  }

  /** What a step of a run does to one user's password. */
  lemma SecretOfRun(states: seq<State>, times: seq<Instant>, events: seq<Event>, responses: seq<Response>, n: nat, u: UserId)
    requires Execution(states, times, events, responses) && n < |events|
    ensures |states| == |events| + 1 && |responses| == |events| && states[n].next <= states[n + 1].next
    ensures u in states[n + 1].users && u < states[n].next && !SetsSecret(states[n], events[n], responses[n], u) ==>
      u in states[n].users && states[n + 1].users[u].secret == states[n].users[u].secret
    ensures SetsSecret(states[n], events[n], responses[n], u) ==>
      u < states[n + 1].next && (u in states[n + 1].users ==> states[n + 1].users[u].secret == Some(SecretSet(states[n], events[n]).value.1))
  {
    StepOf(states, times, events, responses, n);
    hide Step, Inv, RowsAfter, RequestsEvolve;
    RunEvolves(states, times, events, responses, n);
    assert states[n].next <= states[n + 1].next;
    RowsExact(times[n], states[n], events[n], states[n + 1], responses[n]);
    SecretStep(times[n], states[n], events[n], states[n + 1], responses[n], u);
    hide Execution, Evolves;
    if SetsSecret(states[n], events[n], responses[n], u) {
      SetterIsKnown(times[n], states[n], events[n], states[n + 1], responses[n], u);
    }
  }

  lemma RunLengths(states: seq<State>, times: seq<Instant>, events: seq<Event>, responses: seq<Response>)
    requires Execution(states, times, events, responses)
    ensures |states| == |events| + 1 && |responses| == |events|
  {
  }

  /** A password that was set stays the user's until another is set. */
  lemma {:induction false} SecretIsTheLastSet(states: seq<State>, times: seq<Instant>, events: seq<Event>, responses: seq<Response>,
                                              i: nat, j: nat, u: UserId, p: string)
    requires Execution(states, times, events, responses) && i < j < |states|
    requires SetsSecret(states[i], events[i], responses[i], u) && SecretSet(states[i], events[i]).value.1 == p
    requires forall k :: i < k < j ==> !SetsSecret(states[k], events[k], responses[k], u)
    ensures u < states[j].next && (u in states[j].users ==> states[j].users[u].secret == Some(p))
    decreases j
  {
    hide Execution, SetsSecret, SecretSet;
    RunLengths(states, times, events, responses);
    SecretOfRun(states, times, events, responses, j - 1, u);
    if j - 1 > i {
      SecretIsTheLastSet(states, times, events, responses, i, j - 1, u, p);
    }
  }

  /**
    After a password was set and until another is, a login without a request
    succeeds with that password and no other, for an enabled, verified user with
    his second factor.
   */
  lemma PasswordInForce(states: seq<State>, times: seq<Instant>, events: seq<Event>, responses: seq<Response>,
                        i: nat, j: nat, d: LoginData, p: string)
    requires Execution(states, times, events, responses) && i < j < |events|
    requires SetsSecret(states[i], events[i], responses[i], d.user) && SecretSet(states[i], events[i]).value.1 == p
    requires forall k :: i < k < j ==> !SetsSecret(states[k], events[k], responses[k], d.user)
    requires events[j] == Login(d) && d.request.None?
    ensures responses[j].Tokens? <==> Enabled(states[j], d.user) && d.password == p && d.verified && d.secondFactor
  {
    SecretIsTheLastSet(states, times, events, responses, i, j, d.user, p);
    StepOf(states, times, events, responses, j);
    hide Execution, Step, SetsSecret;
    PasswordLoginExact(times[j], states[j], d, states[j + 1], responses[j]);
  }

  // ---------- the stamp that a password change replaced ----------

  /**
    Claims from before a password change, on a device that is still there, while
    the user's row stays as the change left it: they pass on four routes, for two
    minutes.
   */
  lemma OldStampAfterPassword(now: Instant, s: State, c: Claims, password: string, new_: string, s': State,
                              later: Instant, s2: State, old_: Claims, route: Option<string>)
    requires Inv(s, now) && Step(now, s, Call(c, ChangePassword(password, new_)), s', Granted)
    requires old_.user == c.user && c.user in s.users && old_.stamp == s.users[c.user].stamp
    requires c.user in s'.users && c.user in s2.users && s2.users[c.user] == s'.users[c.user] && (c.user, old_.device) in s2.devices
    ensures Authenticate(later, s2, old_, route).1 <==>
      && route in {Some("post_rotatekey"), Some("get_contacts"), Some("get_public_keys"), Some("get_api_webauthn")}
      && Timestamp(later) <= Timestamp(now) + 120
  {
    var e := Call(c, ChangePassword(password, new_));
    RowsExact(now, s, e, s', Granted);
    hide Step, Inv;
    assert RowAfter(now, s, e, s', Granted, c.user);
    StampRule(later, s2, old_, route);
  }

  /** Of the operations, they allow the key rotation and reads on the other three routes. */
  lemma RoutesAfterPassword(op: Operation)
    ensures Route(op) in {Some("post_rotatekey"), Some("get_contacts"), Some("get_public_keys"), Some("get_api_webauthn")} <==>
      op.RotateKeys? || (op.Read? && op.name in {Some("post_rotatekey"), Some("get_contacts"), Some("get_public_keys"), Some("get_api_webauthn")})
  {
  }

  /** The name under which an exception lists each operation; no two of them share it, but for reads. */
  lemma RouteNames(op: Operation)
    ensures op.ChangePassword? <==> !op.Read? && Route(op) == Some("post_password")
    ensures op.InitPassword? <==> !op.Read? && Route(op) == Some("post_set_password")
    ensures op.ChangeKdf? <==> !op.Read? && Route(op) == Some("post_kdf")
    ensures op.RotateKeys? <==> !op.Read? && Route(op) == Some("post_rotatekey")
    ensures op.ChangeEmail? <==> !op.Read? && Route(op) == Some("post_email")
    ensures op.PostKeys? <==> !op.Read? && Route(op) == Some("post_keys")
    ensures op.NewStamp? <==> !op.Read? && Route(op) == Some("post_sstamp")
    ensures op.NewApiKey? && op.rotate <==> !op.Read? && Route(op) == Some("rotate_api_key")
    ensures op.NewApiKey? && !op.rotate <==> !op.Read? && Route(op) == Some("post_api_key")
    ensures op.Answer? <==> !op.Read? && Route(op) == Some("put_auth_request")
  {
  }

  // ---------- what becomes of requests ----------

  /** Asking needs a device of the user of the kind named, and leaves a blank request. */
  lemma AskExact(now: Instant, s: State, u: UserId, d: DeviceId, kind: int, ip: string, code: string, key: string, s': State, r: Response)
    requires Inv(s, now) && Step(now, s, Ask(u, d, kind, ip, code, key), s', r)
    ensures r == Granted <==> u in s.users && (u, d) in s.devices && s.devices[(u, d)].kind == kind
    ensures r != Granted ==> s' == s
    ensures r == Granted ==>
      && s.next !in s.requests && s'.requests.Keys == s.requests.Keys + {s.next} && s'.users == s.users && s'.devices == s.devices
      && (forall id :: id in s.requests ==> s'.requests[id] == s.requests[id])
      && var q := s'.requests[s.next];
         && q.user == u && q.device == d && q.kind == kind && q.ip == ip && q.accessCode == code && q.publicKey == key
         && q.created == now && q.approved.None? && q.responder.None? && q.encKey.None? && q.passwordHash.None? && q.answered.None?
  {
    assert RequestsSound(s);
  }

  /** An approval writes the answer into the request; a refusal deletes it; neither touches anything else. */
  lemma AnswerExact(now: Instant, s: State, c: Claims, op: Operation, s': State)
    requires op.Answer? && Step(now, s, Call(c, op), s', Granted)
    ensures s' == s.(requests := s'.requests) && op.request in s.requests
    ensures !op.approve ==> s'.requests == s.requests - {op.request}
    ensures op.approve ==>
      && s'.requests.Keys == s.requests.Keys
      && (forall id :: id in s.requests && id != op.request ==> s'.requests[id] == s.requests[id])
      && SameQuestion(s.requests[op.request], s'.requests[op.request])
      && var q := s'.requests[op.request];
         && q.approved == Some(true) && q.encKey == Some(op.encKey) && q.passwordHash == op.hash
         && q.responder == Some(c.device) && q.answered == Some(now)
  {
    StampRule(now, s, c, Route(op));
  }

  /** The purge takes exactly the requests older than a quarter of an hour. */
  lemma PurgeExact(now: Instant, s: State, s': State, r: Response)
    requires Step(now, s, PurgeRequests, s', r)
    ensures r == Granted && s' == s.(requests := s'.requests)
    ensures forall id :: id in s'.requests <==> id in s.requests && now - s.requests[id].created <= 900_000_000_000
    ensures forall id :: id in s'.requests ==> s'.requests[id] == s.requests[id]
  {
  }

  lemma OtherRequests(now: Instant, s: State, e: Event, s': State, r: Response)
    requires Inv(s, now) && Step(now, s, e, s', r) && !e.Ask? && !e.PurgeRequests? && !(e.Call? && e.op.Answer?)
    ensures s'.requests == s.requests
  {
    SoundPart(s, now);
    hide Operated, StampReset, Inv, Sound, Evolves;
    match e
    case Call(c, op) =>
      AuthenticateEvolves(now, s, c, Route(op));
      if Authenticate(now, s, c, Route(op)).1 { OperatedRequests(now, s, c, op, s', r); }
    case Invite => InviteEvolves(now, s, s', r);
    case Register(_, _, _, _) => RegisterEvolves(now, s, e, s', r);
    case Disable(u) => if u in s.users { DisableEvolves(now, s, u, s', r); }
    case Deauthorize(u) => if u in s.users { DeauthorizeEvolves(now, s, u, s', r); }
    case _ =>
  }

  lemma SoundPart(s: State, now: Instant)
    requires Inv(s, now)
    ensures Sound(s, now)
  {
  }

  // ---------- what becomes of devices ----------

  /** The steps that take all of this user's devices away, if they are granted. */
  predicate Drops(e: Event, u: UserId) {
    || e == Disable(u) || e == Deauthorize(u) || e == DeleteUser(u)
    || (e.Call? && e.claims.user == u && e.op.NewStamp?)
  }

  /** The device a login names once its credentials are accepted, whether or not the second factor follows. */
  function Named(now: Instant, s: State, e: Event): Option<(UserId, DeviceId)> {
    if e.LoginApiKey? && Enabled(s, e.user) && s.users[e.user].apiKey == Some(e.apiKey) then Some((e.user, e.device))
    else if e.Login? && Enabled(s, e.data.user) && e.data.verified
      && (if e.data.request.Some? then Redeemable(s, now, e.data.user, e.data.request.value, e.data.ip, e.data.password)
          else s.users[e.data.user].secret == Some(e.data.password))
    then Some((e.data.user, e.data.device))
    else None
  }

  /** The devices after a step: one may be added by a login, all of a user's may go, tokens change with a stamp, kinds never. */
  ghost predicate DevicesExactly(now: Instant, s: State, e: Event, s': State, r: Response) {
    && (forall k :: k in s'.devices <==> (k in s.devices && !(r == Granted && Drops(e, k.0))) || Named(now, s, e) == Some(k))
    && (forall k :: k in s.devices && k in s'.devices ==>
          s'.devices[k].kind == s.devices[k].kind
          && (s'.devices[k].token != s.devices[k].token <==> r == Granted && Resets(e, k.0)))
  }

  lemma ResetDevicesExactly(now: Instant, s: State, e: Event, t: State, s': State, u: UserId)
    requires TokensSound(s) && u in t.users && t.next == s.next && t.devices == s.devices && StampReset(t, s', u)
    requires !e.Login? && !e.LoginApiKey? && (forall v :: Resets(e, v) <==> v == u) && forall v :: !Drops(e, v)
    ensures DevicesExactly(now, s, e, s', Granted)
  {
    var mid := WithFreshStamp(t, u);
    assert Rotated(mid, s', u) && mid.devices == s.devices;
    assert s'.devices.Keys == s.devices.Keys;
  }

  lemma DroppedDevicesExactly(now: Instant, s: State, e: Event, s': State, u: UserId)
    requires s'.devices == WithoutDevices(s, u).devices && !e.Login? && !e.LoginApiKey?
    requires (forall v :: Drops(e, v) <==> v == u) && forall v :: Resets(e, v) ==> v == u
    ensures DevicesExactly(now, s, e, s', Granted)
  {
  }

  lemma ResetThenDropped(s: State, t: State, s': State, u: UserId)
    requires u in s.users && StampReset(s, t, u) && s'.devices == WithoutDevices(t, u).devices
    ensures s'.devices == WithoutDevices(s, u).devices
  {
    assert Rotated(WithFreshStamp(s, u), t, u) && t.devices.Keys == s.devices.Keys;
  }

  lemma DroppedThenReset(s: State, s': State, u: UserId)
    requires u in s.users && StampReset(WithoutDevices(s, u), s', u)
    ensures s'.devices == WithoutDevices(s, u).devices
  {
    assert Rotated(WithFreshStamp(WithoutDevices(s, u), u), s', u);
    assert s'.devices.Keys == WithoutDevices(s, u).devices.Keys;
  }

  lemma SameDevicesExactly(now: Instant, s: State, e: Event, s': State, r: Response)
    requires s'.devices == s.devices && Named(now, s, e).None?
    requires r == Granted ==> forall v :: !Drops(e, v) && !Resets(e, v)
    ensures DevicesExactly(now, s, e, s', r)
  {
  }

  lemma OperatedDevicesExactly(now: Instant, s: State, c: Claims, op: Operation, s': State, r: Response)
    requires TokensSound(s) && c.user in s.users && Operated(now, s, c, op, s', r)
    ensures DevicesExactly(now, s, Call(c, op), s', r)
  {
    hide StampReset, DevicesExactly, TokensSound;
    var u, e := c.user, Call(c, op);
    if r == Denied || Quiet(op) {
      SameDevicesExactly(now, s, e, s', r);
    } else {
      match op
      case ChangePassword(_, new_) => ResetDevicesExactly(now, s, e, WithException(WithSecret(s, u, new_), now, u, AFTER_PASSWORD), s', u);
      case ChangeKdf(_, new_, _) => ResetDevicesExactly(now, s, e, WithSecret(s, u, new_), s', u);
      case RotateKeys(_, new_, _) => ResetDevicesExactly(now, s, e, WithSecret(s, u, new_), s', u);
      case ChangeEmail(_, new_, _) => ResetDevicesExactly(now, s, e, WithSecret(s, u, new_), s', u);
      case NewStamp(_) =>
        var t :| StampReset(s, t, u) && s' == WithoutDevices(t, u);
        ResetThenDropped(s, t, s', u);
        DroppedDevicesExactly(now, s, e, s', u);
    }
  }

  lemma AddedDevice(now: Instant, s: State, e: Event, s': State, r: Response, u: UserId, d: DeviceId, kind: int)
    requires s' == WithDevice(s, u, d, kind) && (e.Login? || e.LoginApiKey?) && Named(now, s, e) == Some((u, d))
    ensures DevicesExactly(now, s, e, s', r)
  {
  }

  lemma LoginDevices(now: Instant, s: State, e: Event, s': State, r: Response)
    requires (e.Login? || e.LoginApiKey?) && Step(now, s, e, s', r)
    ensures DevicesExactly(now, s, e, s', r)
  {
    hide DevicesExactly;
    match e
    case Login(d) =>
      if LoginAccepted(s, now, d) { AddedDevice(now, s, e, s', r, d.user, d.device, d.kind); } else { SameDevicesExactly(now, s, e, s', r); }
    case LoginApiKey(u, d, kind, key) =>
      if Named(now, s, e).Some? { AddedDevice(now, s, e, s', r, u, d, kind); } else { SameDevicesExactly(now, s, e, s', r); }
  }

  lemma AdminDevices(now: Instant, s: State, e: Event, s': State, r: Response)
    requires Step(now, s, e, s', r) && (e.Disable? || e.Deauthorize? || e.DeleteUser?)
    ensures DevicesExactly(now, s, e, s', r)
  {
    hide DevicesExactly, StampReset, Rotated;
    if r == Denied {
      SameDevicesExactly(now, s, e, s', r);
    } else {
      match e
      case Disable(u) => DisabledDevices(now, s, u, s', r);
      case Deauthorize(u) =>
        DroppedThenReset(s, s', u);
        DroppedDevicesExactly(now, s, e, s', u);
      case DeleteUser(u) => DroppedDevicesExactly(now, s, e, s', u);
    }
  }

  lemma DisabledDevices(now: Instant, s: State, u: UserId, s': State, r: Response)
    requires u in s.users && Step(now, s, Disable(u), s', r)
    ensures DevicesExactly(now, s, Disable(u), s', r)
  {
    var t :| StampReset(s, t, u) && s' == WithoutDevices(SetUser(t, u, t.users[u].(enabled := false)), u);
    hide StampReset, DevicesExactly;
    assert s'.devices == WithoutDevices(t, u).devices;
    ResetThenDropped(s, t, s', u);
    DroppedDevicesExactly(now, s, Disable(u), s', u);
  }

  /** Every device after every step. */
  lemma DevicesExact(now: Instant, s: State, e: Event, s': State, r: Response)
    requires Inv(s, now) && Step(now, s, e, s', r)
    ensures DevicesExactly(now, s, e, s', r)
  {
    assert TokensSound(s);
    hide Inv, DevicesExactly, StampReset, Operated, TokensSound;
    match e
    case Call(c, op) =>
      StampRule(now, s, c, Route(op));
      if Authenticate(now, s, c, Route(op)).1 {
        OperatedDevicesExactly(now, s, c, op, s', r);
      } else {
        SameDevicesExactly(now, s, e, s', r);
      }
    case Register(existing, _, password, withKeys) =>
      if r == Granted && existing.Some? {
        var u := existing.value;
        var row := s.users[u];
        ResetDevicesExactly(now, s, e, SetUser(s, u, row.(secret := Some(password), initialized := row.initialized || withKeys)), s', u);
      } else {
        SameDevicesExactly(now, s, e, s', r);
      }
    case Login(_) => LoginDevices(now, s, e, s', r);
    case LoginApiKey(_, _, _, _) => LoginDevices(now, s, e, s', r);
    case Disable(_) => AdminDevices(now, s, e, s', r);
    case Deauthorize(_) => AdminDevices(now, s, e, s', r);
    case DeleteUser(_) => AdminDevices(now, s, e, s', r);
    case _ => SameDevicesExactly(now, s, e, s', r);
  }
}
