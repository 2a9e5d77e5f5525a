/**
  Safety of sessions over whole runs with a clock that never goes back: how
  long a replaced stamp lives, that replaced refresh tokens are dead, that a
  disabled user holds no session, and the life of a login request.
 */
module SessionLaws {
  import opened Wrappers
  import opened Session

  // ---------- what one step can do ----------

  lemma TwoMinutes(now: Instant)
    ensures Timestamp(now + 2 * MINUTE) == Timestamp(now) + 120
  {
    assert (now + 120 * SECOND) / SECOND == now / SECOND + 120;
  }

  /** An exception after a step: the old one, none, or one made now for the stamp that was current. */
  predicate ExceptionEvolves(now: Instant, old_: User, new_: User) {
    || new_.exemption == old_.exemption
    || new_.exemption.None?
    || (new_.exemption.value.stamp == old_.stamp && new_.exemption.value.expire == Timestamp(now) + 120)
  }

  ghost predicate UsersEvolve(now: Instant, s: State, s': State) {
    forall u :: u in s'.users ==>
      if u in s.users then
        && (s'.users[u].stamp == s.users[u].stamp || s.next <= s'.users[u].stamp < s'.next)
        && ExceptionEvolves(now, s.users[u], s'.users[u])
      else s.next <= u < s'.next && s.next <= s'.users[u].stamp < s'.next && s'.users[u].exemption.None?
  }

  ghost predicate DevicesEvolve(s: State, s': State) {
    && (forall k :: k in s'.devices ==>
          || (k in s.devices && s'.devices[k].token == s.devices[k].token)
          || s.next <= s'.devices[k].token < s'.next)
    && (forall k, l :: k in s'.devices && l in s'.devices && k != l && s.next <= s'.devices[k].token ==>
          s'.devices[k].token != s'.devices[l].token)
  }

  /** A new stamp comes with new tokens on all the user's devices; without one, devices stay as they are. */
  ghost predicate ResetsRotate(s: State, s': State) {
    forall k :: k in s'.devices && k.0 in s.users && k.0 in s'.users ==>
      if s'.users[k.0].stamp != s.users[k.0].stamp then s.next <= s'.devices[k].token
      else k in s.devices ==> s'.devices[k] == s.devices[k]
  }

  /** Every device belongs to an existing, enabled user. */
  ghost predicate OwnersEnabled(s: State) {
    forall k :: k in s.devices ==> k.0 in s.users && s.users[k.0].enabled
  }

  ghost predicate TokensSound(s: State) {
    && (forall k :: k in s.devices ==> s.devices[k].token < s.next)
    && (forall k, l :: k in s.devices && l in s.devices && k != l ==> s.devices[k].token != s.devices[l].token)
  }

  ghost predicate StampsSound(s: State, now: Instant) {
    forall u :: u in s.users ==>
      && u < s.next && s.users[u].stamp < s.next
      && (s.users[u].exemption.Some? ==> s.users[u].exemption.value.expire <= Timestamp(now) + 120)
  }

  ghost predicate Sound(s: State, now: Instant) {
    OwnersEnabled(s) && TokensSound(s) && StampsSound(s, now)
  }

  /** A request is pending and blank, or approved with its answer. */
  predicate RequestSound(r: AuthRequest) {
    if r.approved.None? then r.responder.None? && r.encKey.None? && r.passwordHash.None? && r.answered.None?
    else r.approved.value && r.responder.Some? && r.encKey.Some? && r.answered.Some?
  }

  ghost predicate RequestsSound(s: State) {
    forall id :: id in s.requests ==> id < s.next && RequestSound(s.requests[id])
  }

  ghost predicate Inv(s: State, now: Instant) {
    Sound(s, now) && RequestsSound(s)
  }

  ghost predicate Evolves(now: Instant, s: State, s': State) {
    s.next <= s'.next && UsersEvolve(now, s, s') && DevicesEvolve(s, s') && ResetsRotate(s, s') && OwnersEnabled(s')
  }

  /** A state reached within a step before any stamp or token was drawn. */
  ghost predicate Prepared(now: Instant, s: State, t: State, u: UserId) {
    && t.next == s.next && u in s.users && t.users.Keys == s.users.Keys
    && (forall v :: v in s.users && v != u ==> t.users[v] == s.users[v])
    && t.users[u].stamp == s.users[u].stamp && t.users[u].enabled == s.users[u].enabled
    && ExceptionEvolves(now, s.users[u], t.users[u])
    && t.devices.Keys <= s.devices.Keys && forall k :: k in t.devices ==> t.devices[k] == s.devices[k]
  }

  lemma PreparedEvolves(now: Instant, s: State, t: State, u: UserId)
    requires Sound(s, now) && Prepared(now, s, t, u)
    ensures Evolves(now, s, t)
  {
  }

  lemma ResetDevices(t: State, s': State, u: UserId, s: State)
    requires u in t.users && StampReset(t, s', u) && t.next == s.next && TokensSound(s)
    requires t.devices.Keys <= s.devices.Keys && forall k :: k in t.devices ==> t.devices[k] == s.devices[k]
    ensures DevicesEvolve(s, s') && s'.devices.Keys == t.devices.Keys
    ensures forall k :: k in s'.devices ==> if k.0 == u then s.next <= s'.devices[k].token else s'.devices[k] == s.devices[k]
  {
    var mid := WithFreshStamp(t, u);
    forall k | k in s'.devices
      ensures (k in s.devices && s'.devices[k].token == s.devices[k].token) || s.next <= s'.devices[k].token < s'.next
    {
      assert k in mid.devices;
    }
    forall k, l | k in s'.devices && l in s'.devices && k != l && s.next <= s'.devices[k].token
      ensures s'.devices[k].token != s'.devices[l].token
    {
      assert k in mid.devices && l in mid.devices;
    }
  }

  lemma ResetShape(t: State, s': State, u: UserId)
    requires u in t.users && StampReset(t, s', u)
    ensures s'.users == t.users[u := t.users[u].(stamp := t.next)] && t.next < s'.next && s'.requests == t.requests
  {
  }

  lemma ResetUsers(now: Instant, s: State, t: State, s': State, u: UserId)
    requires Sound(s, now) && Prepared(now, s, t, u) && s.next < s'.next
    requires s'.users == t.users[u := t.users[u].(stamp := s.next)]
    ensures UsersEvolve(now, s, s')
    ensures s.users[u].stamp != s.next && forall v :: v in s.users && v != u ==> s'.users[v] == s.users[v]
  {
    hide OwnersEnabled, TokensSound;
  }

  lemma ResetRotation(s: State, s': State, u: UserId)
    requires u in s.users && u in s'.users && s'.users[u].stamp != s.users[u].stamp
    requires forall v :: v in s.users && v != u ==> v in s'.users && s'.users[v] == s.users[v]
    requires forall k :: k in s'.devices ==>
      k in s.devices && if k.0 == u then s.next <= s'.devices[k].token else s'.devices[k] == s.devices[k]
    ensures ResetsRotate(s, s')
  {
  }

  lemma ResetOwners(s: State, s': State)
    requires OwnersEnabled(s) && s'.devices.Keys <= s.devices.Keys
    requires forall v :: v in s.users ==> v in s'.users && s'.users[v].enabled == s.users[v].enabled
    ensures OwnersEnabled(s')
  {
    forall k | k in s'.devices ensures k.0 in s'.users && s'.users[k.0].enabled {
      assert k in s.devices;
    }
  }

  lemma ResetEvolves(now: Instant, s: State, t: State, s': State, u: UserId)
    requires Sound(s, now) && Prepared(now, s, t, u) && StampReset(t, s', u)
    ensures Evolves(now, s, s') && u in s'.users && s'.users[u] == t.users[u].(stamp := s.next)
    ensures s'.requests == t.requests
  {
    hide TokensSound, Rotated, UsersEvolve, DevicesEvolve, ResetsRotate, OwnersEnabled, StampReset, StampsSound;
    ResetDevices(t, s', u, s);
    ResetShape(t, s', u);
    ResetUsers(now, s, t, s', u);
    assert forall k :: k in s'.devices ==> k in s.devices;
    ResetRotation(s, s', u);
    ResetOwners(s, s');
  }

  /** Dropping a user's devices, and changing the flag of a user without devices. */
  lemma DropEvolves(now: Instant, s: State, t: State, s': State, u: UserId)
    requires Evolves(now, s, t) && u in t.users && s'.devices == WithoutDevices(t, u).devices && s'.next == t.next
    requires s'.users == t.users || (exists e: bool :: s'.users == t.users[u := t.users[u].(enabled := e)])
    ensures Evolves(now, s, s')
  {
    forall k | k in s'.devices ensures k in t.devices && k.0 != u && s'.devices[k] == t.devices[k] {
    }
  }

  lemma Unchanged(now: Instant, s: State)
    requires Sound(s, now)
    ensures Evolves(now, s, s)
  {
  }

  lemma AuthenticateEvolves(now: Instant, s: State, c: Claims, route: Option<string>)
    requires Sound(s, now)
    ensures Evolves(now, s, Authenticate(now, s, c, route).0)
    ensures Authenticate(now, s, c, route).1 ==>
      Authenticate(now, s, c, route).0 == s && (c.user, c.device) in s.devices && c.user in s.users
  {
    hide Sound, Evolves;
    if c.user in s.users {
      PreparedEvolves(now, s, Authenticate(now, s, c, route).0, c.user);
    } else {
      Unchanged(now, s);
    }
  }

  /** Operations that leave stamps and devices alone. */
  predicate Quiet(op: Operation) {
    op.Read? || op.InitPassword? || op.PostKeys? || op.NewApiKey? || op.Answer?
  }

  lemma QuietEvolves(now: Instant, s: State, c: Claims, op: Operation, s': State, r: Response)
    requires Sound(s, now) && c.user in s.users && Quiet(op) && Operated(now, s, c, op, s', r)
    ensures Evolves(now, s, s')
  {
    hide Evolves, Sound, StampReset;
    TwoMinutes(now);
    PreparedEvolves(now, s, s', c.user);
  }

  lemma OperatedEvolves(now: Instant, s: State, c: Claims, op: Operation, s': State, r: Response)
    requires Sound(s, now) && c.user in s.users && Operated(now, s, c, op, s', r)
    ensures Evolves(now, s, s')
  {
    hide Evolves, StampReset, Sound;
    var u := c.user;
    TwoMinutes(now);
    if Quiet(op) {
      QuietEvolves(now, s, c, op, s', r);
    } else if r == Denied {
      Unchanged(now, s);
    } else {
      match op
      case ChangePassword(password, new_) =>
        ResetEvolves(now, s, WithException(WithSecret(s, u, new_), now, u, AFTER_PASSWORD), s', u);
      case NewStamp(proof) =>
        var t :| StampReset(s, t, u) && s' == WithoutDevices(t, u);
        ResetEvolves(now, s, s, t, u);
        DropEvolves(now, s, t, s', u);
      case ChangeKdf(_, new_, _) => ResetEvolves(now, s, WithSecret(s, u, new_), s', u);
      case RotateKeys(_, new_, _) => ResetEvolves(now, s, WithSecret(s, u, new_), s', u);
      case ChangeEmail(_, new_, _) => ResetEvolves(now, s, WithSecret(s, u, new_), s', u);
    }
  }

  lemma LoginEvolves(now: Instant, s: State, u: UserId, d: DeviceId, kind: int)
    requires Sound(s, now) && u in s.users && s.users[u].enabled
    ensures Evolves(now, s, WithDevice(s, u, d, kind))
  {
  }

  lemma InviteEvolves(now: Instant, s: State, s': State, r: Response)
    requires Sound(s, now) && Step(now, s, Invite, s', r)
    ensures Evolves(now, s, s') && s'.requests == s.requests
  {
  }

  lemma RegisterEvolves(now: Instant, s: State, e: Event, s': State, r: Response)
    requires Sound(s, now) && e.Register? && Step(now, s, e, s', r)
    ensures Evolves(now, s, s') && s'.requests == s.requests
  {
    if r == Granted && e.existing.Some? {
      var u := e.existing.value;
      var row := s.users[u];
      ResetEvolves(now, s, SetUser(s, u, row.(secret := Some(e.password), initialized := row.initialized || e.withKeys)), s', u);
    }
  }

  lemma DisableEvolves(now: Instant, s: State, u: UserId, s': State, r: Response)
    requires Sound(s, now) && u in s.users && Step(now, s, Disable(u), s', r)
    ensures Evolves(now, s, s') && s'.requests == s.requests
  {
    hide Evolves, Sound;
    var t :| StampReset(s, t, u) && s' == WithoutDevices(SetUser(t, u, t.users[u].(enabled := false)), u);
    ResetEvolves(now, s, s, t, u);
    DropEvolves(now, s, t, s', u);
  }

  lemma DeauthorizeEvolves(now: Instant, s: State, u: UserId, s': State, r: Response)
    requires Sound(s, now) && u in s.users && Step(now, s, Deauthorize(u), s', r)
    ensures Evolves(now, s, s') && s'.requests == s.requests
  {
    hide Sound, Evolves, StampReset;
    ResetEvolves(now, s, WithoutDevices(s, u), s', u);
  }

  lemma EnableEvolves(now: Instant, s: State, e: Event, s': State, r: Response)
    requires Sound(s, now) && e.Enable? && Step(now, s, e, s', r)
    ensures Evolves(now, s, s') && s'.requests == s.requests
  {
    hide StampsSound;
  }

  lemma DeleteEvolves(now: Instant, s: State, e: Event, s': State, r: Response)
    requires Sound(s, now) && e.DeleteUser? && Step(now, s, e, s', r)
    ensures Evolves(now, s, s') && s'.requests == s.requests
  {
    hide StampsSound;
  }

  lemma StepEvolves(now: Instant, s: State, e: Event, s': State, r: Response)
    requires Sound(s, now) && Step(now, s, e, s', r)
    ensures Evolves(now, s, s')
  {
    hide Operated, Authenticate;
    match e
    case Invite => InviteEvolves(now, s, s', r);
    case Register(_, _, _, _) => RegisterEvolves(now, s, e, s', r);
    case Login(d) => if LoginAccepted(s, now, d) { LoginEvolves(now, s, d.user, d.device, d.kind); }
    case LoginApiKey(u, d, kind, key) => if u in s.users && s.users[u].enabled { LoginEvolves(now, s, u, d, kind); }
    case Call(c, op) =>
      AuthenticateEvolves(now, s, c, Route(op));
      if Authenticate(now, s, c, Route(op)).1 { OperatedEvolves(now, s, c, op, s', r); }
    case Refresh(_, _) =>
    case Ask(_, _, _, _, _, _) =>
    case PurgeRequests =>
    case Disable(u) => if u in s.users { DisableEvolves(now, s, u, s', r); }
    case Deauthorize(u) => if u in s.users { DeauthorizeEvolves(now, s, u, s', r); }
    case Enable(_) => EnableEvolves(now, s, e, s', r);
    case DeleteUser(_) => DeleteEvolves(now, s, e, s', r);
  }

  // ---------- requests within one step ----------

  ghost predicate Pending(r: AuthRequest) {
    r.approved.None? && r.responder.None? && r.encKey.None? && r.passwordHash.None? && r.answered.None?
  }

  /** The step is an accepted answer, by an authenticated device of the request's user, that approves it. */
  ghost predicate ApprovedBy(now: Instant, s: State, e: Event, r: Response, id: nat) {
    && e.Call? && e.op.Answer? && e.op.request == id && e.op.approve && r == Granted
    && id in s.requests && e.claims.user == s.requests[id].user && e.op.device == e.claims.device
    && Authenticate(now, s, e.claims, Route(e.op)).1
  }

  /** One request in one step: as before, newly asked, or approved. */
  ghost predicate RequestEvolves(now: Instant, s: State, e: Event, s': State, r: Response, id: nat)
    requires id in s'.requests
  {
    if id in s.requests then
      || s'.requests[id] == s.requests[id]
      || (s.requests[id].approved.None? && ApprovedBy(now, s, e, r, id) && s'.requests[id] == Approved(s.requests[id], now, e.op))
    else
      var row := s'.requests[id];
      && s.next <= id < s'.next && Pending(row) && row.created == now
      && e == Ask(row.user, row.device, row.kind, row.ip, row.accessCode, row.publicKey)
  }

  ghost predicate RequestsEvolve(now: Instant, s: State, e: Event, s': State, r: Response) {
    forall id :: id in s'.requests ==> RequestEvolves(now, s, e, s', r, id)
  }

  lemma OperatedRequests(now: Instant, s: State, c: Claims, op: Operation, s': State, r: Response)
    requires c.user in s.users && Operated(now, s, c, op, s', r)
    ensures !op.Answer? ==> s'.requests == s.requests
    ensures op.Answer? ==>
      || s'.requests == s.requests
      || s'.requests == s.requests - {op.request}
      || (&& r == Granted && op.approve && op.request in s.requests && s.requests[op.request].user == c.user
          && c.device == op.device && s.requests[op.request].approved.None?
          && s'.requests == s.requests[op.request := Approved(s.requests[op.request], now, op)])
  {
  }

  lemma CallRequests(now: Instant, s: State, c: Claims, op: Operation, s': State, r: Response)
    requires Sound(s, now) && Step(now, s, Call(c, op), s', r)
    ensures RequestsEvolve(now, s, Call(c, op), s', r)
  {
    hide Operated, Evolves;
    var (t, ok) := Authenticate(now, s, c, Route(op));
    if ok {
      AuthenticateEvolves(now, s, c, Route(op));
      OperatedRequests(now, s, c, op, s', r);
    }
  }

  lemma StepRequests(now: Instant, s: State, e: Event, s': State, r: Response)
    requires Inv(s, now) && Step(now, s, e, s', r)
    ensures RequestsEvolve(now, s, e, s', r)
  {
    hide Operated, StampReset, Evolves;
    match e
    case Invite => InviteEvolves(now, s, s', r);
    case Register(_, _, _, _) => RegisterEvolves(now, s, e, s', r);
    case Call(c, op) => CallRequests(now, s, c, op, s', r);
    case Disable(u) => if u in s.users { DisableEvolves(now, s, u, s', r); }
    case Enable(_) =>
    case Deauthorize(u) => if u in s.users { DeauthorizeEvolves(now, s, u, s', r); }
    case DeleteUser(_) =>
    case _ =>
  }

  // ---------- every run ----------

  lemma EvolvesKeeps(now: Instant, s: State, e: Event, s': State, r: Response)
    requires Inv(s, now) && Evolves(now, s, s') && RequestsEvolve(now, s, e, s', r)
    ensures Inv(s', now)
  {
    forall id | id in s'.requests ensures id < s'.next && RequestSound(s'.requests[id]) {
      assert RequestEvolves(now, s, e, s', r, id);
    }
  }

  lemma StepKeeps(now: Instant, s: State, e: Event, s': State, r: Response)
    requires Inv(s, now) && Step(now, s, e, s', r)
    ensures Inv(s', now)
  {
    hide Step;
    StepEvolves(now, s, e, s', r);
    StepRequests(now, s, e, s', r);
    EvolvesKeeps(now, s, e, s', r);
  }

  lemma LaterIsFine(s: State, now: Instant, later: Instant)
    requires Inv(s, now) && now <= later
    ensures Inv(s, later)
  {
    assert Timestamp(now) <= Timestamp(later);
  }

  const EMPTY: State := State(map[], map[], map[], 0)

  /** A run: step i happens at times[i], takes states[i] to states[i + 1] and answers responses[i]. */
  ghost predicate Execution(states: seq<State>, times: seq<Instant>, events: seq<Event>, responses: seq<Response>) {
    && |states| == |events| + 1 && |times| == |events| && |responses| == |events|
    && states[0] == EMPTY
    && (forall i, j :: 0 <= i <= j < |times| ==> times[i] <= times[j])
    && forall i {:trigger events[i]} :: 0 <= i < |events| ==> Step(times[i], states[i], events[i], states[i + 1], responses[i])
  }

  lemma {:induction false} ReachableInvariant(states: seq<State>, times: seq<Instant>, events: seq<Event>, responses: seq<Response>, i: nat)
    requires Execution(states, times, events, responses) && i < |events|
    ensures Inv(states[i], times[i])
    ensures Inv(states[i + 1], times[i])
  {
    hide Step, Inv;
    if i == 0 {
      EmptyIsSound(times[0]);
    } else {
      ReachableInvariant(states, times, events, responses, i - 1);
      LaterIsFine(states[i], times[i - 1], times[i]);
    }
    StepKeeps(times[i], states[i], events[i], states[i + 1], responses[i]);
  }

  lemma StepOf(states: seq<State>, times: seq<Instant>, events: seq<Event>, responses: seq<Response>, i: nat)
    requires Execution(states, times, events, responses) && i < |events|
    ensures Step(times[i], states[i], events[i], states[i + 1], responses[i])
  {
  }

  lemma EmptyIsSound(now: Instant)
    ensures Inv(EMPTY, now)
  {
  }

  /** What holds between two consecutive states of a run. */
  lemma RunEvolves(states: seq<State>, times: seq<Instant>, events: seq<Event>, responses: seq<Response>, i: nat)
    requires Execution(states, times, events, responses) && i < |events|
    ensures Inv(states[i], times[i]) && Inv(states[i + 1], times[i])
    ensures Evolves(times[i], states[i], states[i + 1])
    ensures RequestsEvolve(times[i], states[i], events[i], states[i + 1], responses[i])
  {
    hide Step;
    ReachableInvariant(states, times, events, responses, i);
    StepEvolves(times[i], states[i], events[i], states[i + 1], responses[i]);
    StepRequests(times[i], states[i], events[i], states[i + 1], responses[i]);
  }
}
