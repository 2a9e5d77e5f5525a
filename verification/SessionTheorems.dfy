/**
  The promises of the session protocol, over every run: replaced stamps and
  tokens die, disabled users have no session, and a login through a request
  was approved by a device of the same user.
 */
module SessionTheorems {
  import opened Wrappers
  import opened Session
  import opened SessionLaws

  // ---------- security stamps ----------

  /** Which requests pass, and that a refusal forgets exactly an exception found expired. */
  lemma StampRule(now: Instant, s: State, c: Claims, route: Option<string>)
    ensures Authenticate(now, s, c, route).1 <==>
      && (c.user, c.device) in s.devices && c.user in s.users
      && (|| s.users[c.user].stamp == c.stamp
          || (&& s.users[c.user].exemption.Some? && route.Some?
              && s.users[c.user].exemption.value.stamp == c.stamp
              && route.value in s.users[c.user].exemption.value.routes
              && Timestamp(now) <= s.users[c.user].exemption.value.expire))
    ensures Authenticate(now, s, c, route).0 != s <==>
      && (c.user, c.device) in s.devices && c.user in s.users && s.users[c.user].stamp != c.stamp
      && route.Some? && s.users[c.user].exemption.Some? && Timestamp(now) > s.users[c.user].exemption.value.expire
  {
    if c.user in s.users && s.users[c.user].exemption.Some? {
      assert SetUser(s, c.user, s.users[c.user].(exemption := None)).users[c.user] != s.users[c.user];
    }
  }

  /** The stamp is not the user's, and no exception keeps it alive past the limit. */
  ghost predicate Dying(s: State, u: UserId, stamp: nat, limit: int) {
    && u < s.next && stamp < s.next
    && (u in s.users ==>
          && s.users[u].stamp != stamp
          && (s.users[u].exemption.Some? && s.users[u].exemption.value.stamp == stamp ==> s.users[u].exemption.value.expire <= limit))
  }

  lemma DyingStep(now: Instant, s: State, s': State, u: UserId, stamp: nat, limit: int)
    requires Evolves(now, s, s') && Dying(s, u, stamp, limit)
    ensures Dying(s', u, stamp, limit)
  {
  }

  lemma {:induction false} StaysDying(states: seq<State>, times: seq<Instant>, events: seq<Event>, responses: seq<Response>,
                                      i: nat, j: nat, u: UserId, stamp: nat, limit: int)
    requires Execution(states, times, events, responses) && i <= j < |states|
    requires Dying(states[i], u, stamp, limit)
    ensures Dying(states[j], u, stamp, limit)
    decreases j
  {
    if i < j {
      assert |states| == |events| + 1;
      hide Execution, Inv, RequestsEvolve, Evolves, Dying;
      StaysDying(states, times, events, responses, i, j - 1, u, stamp, limit);
      RunEvolves(states, times, events, responses, j - 1);
      DyingStep(times[j - 1], states[j - 1], states[j], u, stamp, limit);
    }
  }

  /**
    A stamp replaced in step i is accepted in a later step only on a route the
    exception lists, and only while the clock shows at most 120 seconds more
    than at the replacement.
   */
  lemma ReplacedStampDies(states: seq<State>, times: seq<Instant>, events: seq<Event>, responses: seq<Response>,
                          i: nat, j: nat, c: Claims, route: Option<string>)
    requires Execution(states, times, events, responses) && i < j < |events|
    requires c.user in states[i].users && states[i].users[c.user].stamp == c.stamp
    requires c.user in states[i + 1].users ==> states[i + 1].users[c.user].stamp != c.stamp
    ensures Authenticate(times[j], states[j], c, route).1 ==>
      && Timestamp(times[j]) <= Timestamp(times[i]) + 120
      && route.Some? && states[j].users[c.user].exemption.Some?
      && route.value in states[j].users[c.user].exemption.value.routes
  {
    hide Step;
    RunEvolves(states, times, events, responses, i);
    var limit := Timestamp(times[i]) + 120;
    assert Dying(states[i + 1], c.user, c.stamp, limit);
    StaysDying(states, times, events, responses, i + 1, j, c.user, c.stamp, limit);
    StampRule(times[j], states[j], c, route);
  }

  // ---------- refresh tokens ----------

  ghost predicate Gone(s: State, token: nat) {
    token < s.next && forall k :: k in s.devices ==> s.devices[k].token != token
  }

  lemma GoneStep(now: Instant, s: State, s': State, token: nat)
    requires Evolves(now, s, s') && Gone(s, token)
    ensures Gone(s', token)
  {
  }

  lemma {:induction false} StaysGone(states: seq<State>, times: seq<Instant>, events: seq<Event>, responses: seq<Response>,
                                     i: nat, j: nat, token: nat)
    requires Execution(states, times, events, responses) && i <= j < |states|
    requires Gone(states[i], token)
    ensures Gone(states[j], token)
    decreases j
  {
    if i < j {
      assert |states| == |events| + 1;
      hide Execution, Inv, RequestsEvolve, Evolves, Gone;
      StaysGone(states, times, events, responses, i, j - 1, token);
      RunEvolves(states, times, events, responses, j - 1);
      GoneStep(times[j - 1], states[j - 1], states[j], token);
    }
  }

  lemma LostTokenIsGone(now: Instant, s: State, s': State, k: (UserId, DeviceId))
    requires TokensSound(s) && Evolves(now, s, s') && k in s.devices
    requires k in s'.devices ==> s'.devices[k].token != s.devices[k].token
    ensures Gone(s', s.devices[k].token)
  {
  }

  lemma GoneIsDenied(now: Instant, s: State, s': State, token: nat, m: Method, r: Response)
    requires Gone(s, token) && Step(now, s, Refresh(token, m), s', r)
    ensures r == Denied
  {
  }

  /** A token its device lost, whatever the reason, is never exchanged again. */
  lemma LostTokenIsDead(states: seq<State>, times: seq<Instant>, events: seq<Event>, responses: seq<Response>,
                        i: nat, j: nat, k: (UserId, DeviceId), m: Method)
    requires Execution(states, times, events, responses) && i < j < |events|
    requires k in states[i].devices
    requires k in states[i + 1].devices ==> states[i + 1].devices[k].token != states[i].devices[k].token
    requires events[j] == Refresh(states[i].devices[k].token, m)
    ensures responses[j] == Denied
  {
    hide Step, Gone;
    var token := states[i].devices[k].token;
    RunEvolves(states, times, events, responses, i);
    LostTokenIsGone(times[i], states[i], states[i + 1], k);
    StaysGone(states, times, events, responses, i + 1, j, token);
    assert Step(times[j], states[j], events[j], states[j + 1], responses[j]);
    GoneIsDenied(times[j], states[j], states[j + 1], token, m, responses[j]);
  }

  /** A device kept by a user who kept his stamp has the same row. */
  ghost predicate KeptUnlessReset(s: State, s': State, k: (UserId, DeviceId))
    requires k in s.devices
  {
    k in s'.devices && k.0 in s.users && k.0 in s'.users && s'.users[k.0].stamp == s.users[k.0].stamp
    ==> s'.devices[k] == s.devices[k]
  }

  /**
    Whatever changed a user's stamp also took all the tokens his devices held:
    none of them is exchanged afterwards. Users whose stamp stayed keep the
    rows of the devices they keep.
   */
  lemma ResetKillsTokens(states: seq<State>, times: seq<Instant>, events: seq<Event>, responses: seq<Response>,
                         i: nat, j: nat, k: (UserId, DeviceId), m: Method)
    requires Execution(states, times, events, responses) && i < j < |events|
    requires k in states[i].devices && k.0 in states[i].users
    requires k.0 in states[i + 1].users ==> states[i + 1].users[k.0].stamp != states[i].users[k.0].stamp
    ensures events[j] == Refresh(states[i].devices[k].token, m) ==> responses[j] == Denied
    ensures forall l :: l in states[i].devices ==> KeptUnlessReset(states[i], states[i + 1], l)
  {
    hide Step;
    RunEvolves(states, times, events, responses, i);
    if events[j] == Refresh(states[i].devices[k].token, m) {
      assert k in states[i + 1].devices ==> k.0 in states[i + 1].users;
      LostTokenIsDead(states, times, events, responses, i, j, k, m);
    }
  }

  /** The step gave the user another stamp or removed him. */
  ghost predicate StampReplaced(s: State, s': State, u: UserId) {
    u in s.users && (u in s'.users ==> s'.users[u].stamp != s.users[u].stamp)
  }

  /** The steps that end a user's sessions on all his devices rather than rotate them. */
  predicate Evicts(e: Event) {
    e.Disable? || e.Deauthorize? || e.DeleteUser? || (e.Call? && e.op.NewStamp?)
  }

  ghost predicate OthersUntouched(s: State, s': State, u: UserId) {
    forall k :: (k in s.devices || k in s'.devices) && k.0 != u ==> k in s.devices && k in s'.devices && s'.devices[k] == s.devices[k]
  }

  ghost predicate NoneLeft(s': State, u: UserId) {
    forall k :: k in s'.devices ==> k.0 != u
  }

  /** The same devices of the same kinds, each with a fresh token. */
  ghost predicate AllRotated(s: State, s': State, u: UserId) {
    forall k :: (k in s.devices || k in s'.devices) && k.0 == u ==>
      k in s.devices && k in s'.devices && s'.devices[k].kind == s.devices[k].kind && s.next <= s'.devices[k].token < s'.next
  }

  /** What became of everybody's devices in a step that replaced the stamp of u. */
  ghost predicate DevicesAfter(s: State, e: Event, s': State, u: UserId) {
    OthersUntouched(s, s', u) && if Evicts(e) then NoneLeft(s', u) else AllRotated(s, s', u)
  }

  lemma RotationDevices(s: State, t: State, s': State, u: UserId, v: UserId)
    requires v in t.users && StampReset(t, s', v) && t.next == s.next && u in s.users && StampReplaced(s, s', u)
    requires forall w :: w in s.users && w != v ==> w in t.users && t.users[w] == s.users[w]
    ensures u == v
    ensures t.devices == s.devices ==> OthersUntouched(s, s', u) && AllRotated(s, s', u)
    ensures t.devices == WithoutDevices(s, u).devices ==> OthersUntouched(s, s', u) && NoneLeft(s', u)
  {
    var mid := WithFreshStamp(t, v);
    assert s'.users == mid.users && mid.devices == t.devices;
    assert forall k :: k in s'.devices <==> k in mid.devices;
  }

  lemma OperationDevices(now: Instant, s: State, c: Claims, op: Operation, s': State, r: Response, u: UserId)
    requires c.user in s.users && Operated(now, s, c, op, s', r) && StampReplaced(s, s', u)
    ensures DevicesAfter(s, Call(c, op), s', u)
  {
    hide StampReset;
    var v := c.user;
    match op
    case ChangePassword(_, new_) => RotationDevices(s, WithException(WithSecret(s, v, new_), now, v, AFTER_PASSWORD), s', u, v);
    case ChangeKdf(_, new_, _) => RotationDevices(s, WithSecret(s, v, new_), s', u, v);
    case RotateKeys(_, new_, _) => RotationDevices(s, WithSecret(s, v, new_), s', u, v);
    case ChangeEmail(_, new_, _) => RotationDevices(s, WithSecret(s, v, new_), s', u, v);
    case NewStamp(_) =>
      var t :| StampReset(s, t, v) && s' == WithoutDevices(t, v);
      RotationDevices(s, s, t, u, v);
    case _ =>
  }

  lemma DisableDevices(now: Instant, s: State, v: UserId, s': State, r: Response, u: UserId)
    requires Step(now, s, Disable(v), s', r) && StampReplaced(s, s', u)
    ensures DevicesAfter(s, Disable(v), s', u)
  {
    var t :| StampReset(s, t, v) && s' == WithoutDevices(SetUser(t, v, t.users[v].(enabled := false)), v);
    ResetShape(s, t, v);
    assert t.users == s.users[v := s.users[v].(stamp := s.next)];
    hide StampReset, OthersUntouched, AllRotated, NoneLeft;
    assert StampReplaced(s, t, u);
    RotationDevices(s, s, t, u, v);
    EvictedDevices(s, t, s', u);
  }

  lemma EvictedDevices(s: State, t: State, s': State, u: UserId)
    requires OthersUntouched(s, t, u) && s'.devices == WithoutDevices(t, u).devices
    ensures OthersUntouched(s, s', u) && NoneLeft(s', u)
  {
  }

  lemma RegisterDevices(now: Instant, s: State, e: Event, s': State, r: Response, u: UserId)
    requires StampsSound(s, now) && (e.Invite? || e.Register?) && Step(now, s, e, s', r) && StampReplaced(s, s', u)
    ensures DevicesAfter(s, e, s', u)
  {
    hide StampReset;
    assert u < s.next;
    if e.Register? && e.existing.Some? {
      var v := e.existing.value;
      var row := s.users[v];
      RotationDevices(s, SetUser(s, v, row.(secret := Some(e.password), initialized := row.initialized || e.withKeys)), s', u, v);
    }
  }

  lemma StepDevices(now: Instant, s: State, e: Event, s': State, r: Response, u: UserId)
    requires Inv(s, now) && Step(now, s, e, s', r) && StampReplaced(s, s', u)
    ensures DevicesAfter(s, e, s', u)
  {
    hide Operated, StampReset, DevicesAfter;
    match e
    case Invite => RegisterDevices(now, s, e, s', r, u);
    case Register(_, _, _, _) => RegisterDevices(now, s, e, s', r, u);
    case Call(c, op) =>
      assert Authenticate(now, s, c, Route(op)).1 && Authenticate(now, s, c, Route(op)).0 == s;
      OperationDevices(now, s, c, op, s', r, u);
    case Disable(v) => DisableDevices(now, s, v, s', r, u);
    case Deauthorize(v) =>
      RotationDevices(s, WithoutDevices(s, v), s', u, v);
      DeauthorizedDevices(s, e, s', u);
    case DeleteUser(v) => DeletedDevices(now, s, v, s', r, u);
    case _ =>
  }

  lemma DeauthorizedDevices(s: State, e: Event, s': State, u: UserId)
    requires e.Deauthorize? && OthersUntouched(s, s', u) && NoneLeft(s', u)
    ensures DevicesAfter(s, e, s', u)
  {
  }

  lemma DeletedDevices(now: Instant, s: State, v: UserId, s': State, r: Response, u: UserId)
    requires Step(now, s, DeleteUser(v), s', r) && StampReplaced(s, s', u)
    ensures DevicesAfter(s, DeleteUser(v), s', u)
  {
    assert u == v;
    assert forall k :: k in s'.devices <==> k in s.devices && k.0 != v;
  }

  /**
    Over every run: a step that replaces a user's stamp, or removes him,
    leaves every device of every other user as it is, adds none, and either
    takes all of his own away or keeps them all with fresh tokens, depending
    on the kind of step.
   */
  lemma StampChangeOnDevices(states: seq<State>, times: seq<Instant>, events: seq<Event>, responses: seq<Response>, i: nat, u: UserId)
    requires Execution(states, times, events, responses) && i < |events|
    requires StampReplaced(states[i], states[i + 1], u)
    ensures DevicesAfter(states[i], events[i], states[i + 1], u)
  {
    ReachableInvariant(states, times, events, responses, i);
    StepOf(states, times, events, responses, i);
    hide Step, Inv, Execution;
    StepDevices(times[i], states[i], events[i], states[i + 1], responses[i], u);
  }

  // ---------- the enabled flag ----------

  /** A disabled user holds no device, passes no request, refreshes nothing and cannot log in. */
  lemma DisabledUserHasNoSession(states: seq<State>, times: seq<Instant>, events: seq<Event>, responses: seq<Response>, i: nat, u: UserId)
    requires Execution(states, times, events, responses) && i < |events|
    requires u in states[i].users && !states[i].users[u].enabled
    ensures forall d :: (u, d) !in states[i].devices
    ensures responses[i].Tokens? ==> responses[i].access.user != u
    ensures events[i].Call? && events[i].claims.user == u ==> responses[i] == Denied
  {
    RunEvolves(states, times, events, responses, i);
    hide Execution;
    assert Step(times[i], states[i], events[i], states[i + 1], responses[i]) by { StepOf(states, times, events, responses, i); }
    assert OwnersEnabled(states[i]);
  }

  // ---------- login through a request ----------

  /** What a request never changes after it was asked. */
  predicate SameQuestion(a: AuthRequest, b: AuthRequest) {
    && a.user == b.user && a.device == b.device && a.kind == b.kind && a.ip == b.ip
    && a.accessCode == b.accessCode && a.publicKey == b.publicKey && a.created == b.created
  }

  lemma RequestStep(states: seq<State>, times: seq<Instant>, events: seq<Event>, responses: seq<Response>, i: nat, id: nat)
    requires Execution(states, times, events, responses) && i < |events| && id < states[i].next
    ensures id < states[i + 1].next
    ensures id in states[i + 1].requests ==>
      && id in states[i].requests
      && RequestEvolves(times[i], states[i], events[i], states[i + 1], responses[i], id)
  {
    hide Execution, Inv, ApprovedBy;
    RunEvolves(states, times, events, responses, i);
  }

  /**
    Between two moments a request keeps its question; once approved it keeps
    everything; once deleted it does not come back.
   */
  lemma {:induction false} RequestsAreFrozen(states: seq<State>, times: seq<Instant>, events: seq<Event>, responses: seq<Response>,
                                             i: nat, j: nat, id: nat)
    requires Execution(states, times, events, responses) && i <= j < |states|
    requires id < states[i].next && id in states[j].requests
    ensures id in states[i].requests && SameQuestion(states[i].requests[id], states[j].requests[id])
    ensures states[i].requests[id].approved.Some? ==> states[j].requests[id] == states[i].requests[id]
  {
    if i < j {
      hide Step, ApprovedBy;
      NextGrows(states, times, events, responses, i, j - 1);
      RequestStep(states, times, events, responses, j - 1, id);
      RequestsAreFrozen(states, times, events, responses, i, j - 1, id);
    }
  }

  lemma {:induction false} NextGrows(states: seq<State>, times: seq<Instant>, events: seq<Event>, responses: seq<Response>, i: nat, j: nat)
    requires Execution(states, times, events, responses) && i <= j < |states|
    ensures states[i].next <= states[j].next
  {
    if i < j {
      hide Inv, RequestsEvolve, UsersEvolve, DevicesEvolve, ResetsRotate, OwnersEnabled, Step;
      NextGrows(states, times, events, responses, i, j - 1);
      RunEvolves(states, times, events, responses, j - 1);
    }
  }

  /** Step k approved the request: it was pending before, and has been as approved ever since. */
  ghost predicate ApprovalStep(states: seq<State>, times: seq<Instant>, events: seq<Event>, responses: seq<Response>,
                               k: nat, j: nat, id: nat)
    requires |states| == |events| + 1 && |times| == |events| && |responses| == |events|
  {
    && k < j < |states| && id in states[k].requests && states[k].requests[id].approved.None?
    && ApprovedBy(times[k], states[k], events[k], responses[k], id)
    && id in states[j].requests && states[j].requests[id] == Approved(states[k].requests[id], times[k], events[k].op)
  }

  /** A request found approved was approved in exactly one step, by an authenticated device of its user. */
  lemma ApprovedOnce(states: seq<State>, times: seq<Instant>, events: seq<Event>, responses: seq<Response>, j: nat, id: nat)
    returns (k: nat)
    requires Execution(states, times, events, responses) && j < |states|
    requires id in states[j].requests && states[j].requests[id].approved.Some?
    ensures ApprovalStep(states, times, events, responses, k, j, id)
    ensures forall l: nat :: ApprovalStep(states, times, events, responses, l, j, id) ==> l == k
  {
    hide Step, Inv;
    k := FindApproval(states, times, events, responses, j, id);
    forall l: nat | ApprovalStep(states, times, events, responses, l, j, id) ensures l == k {
      if l != k {
        var a, b := if l < k then l else k, if l < k then k else l;
        IdsBelowNext(states, times, events, responses, a, id);
        PendingAfterApproval(states, times, events, responses, a, b, j, id);
      }
    }
  }

  lemma {:induction false} FindApproval(states: seq<State>, times: seq<Instant>, events: seq<Event>, responses: seq<Response>, j: nat, id: nat)
    returns (k: nat)
    requires Execution(states, times, events, responses) && j < |states|
    requires id in states[j].requests && states[j].requests[id].approved.Some?
    ensures ApprovalStep(states, times, events, responses, k, j, id)
  {
    hide Step, ApprovedBy, Inv;
    assert j > 0;
    k := j - 1;
    RunEvolves(states, times, events, responses, k);
    assert RequestEvolves(times[k], states[k], events[k], states[j], responses[k], id);
    if states[k].requests[id] == states[j].requests[id] {
      k := FindApproval(states, times, events, responses, k, id);
    }
  }

  lemma IdsBelowNext(states: seq<State>, times: seq<Instant>, events: seq<Event>, responses: seq<Response>, i: nat, id: nat)
    requires Execution(states, times, events, responses) && i < |events| && id in states[i].requests
    ensures id < states[i].next
  {
    hide Step;
    ReachableInvariant(states, times, events, responses, i);
  }

  lemma AnswerApproves(now: Instant, s: State, e: Event, s': State, r: Response, id: nat)
    requires Step(now, s, e, s', r) && ApprovedBy(now, s, e, r, id) && s.requests[id].approved.None?
    ensures id in s'.requests && s'.requests[id].approved.Some?
  {
  }

  /** Not approved twice: after an approval that lasts until j there is no pending moment before j. */
  lemma PendingAfterApproval(states: seq<State>, times: seq<Instant>, events: seq<Event>, responses: seq<Response>, a: nat, b: nat, j: nat, id: nat)
    requires Execution(states, times, events, responses) && a < b < j < |states|
    requires ApprovalStep(states, times, events, responses, a, j, id) && id < states[a].next
    ensures id in states[b].requests && states[b].requests[id].approved.Some?
  {
    StepOf(states, times, events, responses, a);
    AnswerApproves(times[a], states[a], events[a], states[a + 1], responses[a], id);
    hide Step, ApprovedBy, Inv;
    NextGrows(states, times, events, responses, a, a + 1);
    NextGrows(states, times, events, responses, a, b);
    RequestsAreFrozen(states, times, events, responses, b, j, id);
    RequestsAreFrozen(states, times, events, responses, a + 1, b, id);
  }

  /** The step that asked for a request still present. */
  lemma {:induction false} AskedBefore(states: seq<State>, times: seq<Instant>, events: seq<Event>, responses: seq<Response>, j: nat, id: nat)
    returns (a: nat)
    requires Execution(states, times, events, responses) && j < |states| && id in states[j].requests
    ensures a < j && times[a] == states[j].requests[id].created
    ensures var q := states[j].requests[id]; events[a] == Ask(q.user, q.device, q.kind, q.ip, q.accessCode, q.publicKey)
  {
    hide Step, ApprovedBy, Inv;
    assert j > 0;
    a := j - 1;
    RunEvolves(states, times, events, responses, a);
    assert RequestEvolves(times[a], states[a], events[a], states[j], responses[a], id);
    if id in states[a].requests {
      a := AskedBefore(states, times, events, responses, a, id);
    }
  }

  /**
    A session opened through a request: it was asked from the same address with
    the same code less than five minutes before, and in between approved by an
    authenticated device of the user who now logs in.
   */
  lemma LoginWasApproved(states: seq<State>, times: seq<Instant>, events: seq<Event>, responses: seq<Response>, j: nat)
    returns (asked: nat, approved: nat)
    requires Execution(states, times, events, responses) && j < |events|
    requires events[j].Login? && events[j].data.request.Some? && responses[j].Tokens?
    ensures asked < approved < j
    ensures events[asked].Ask? && events[asked].user == events[j].data.user && events[asked].ip == events[j].data.ip
      && events[asked].accessCode == events[j].data.password
    ensures times[j] < times[asked] + 5 * MINUTE
    ensures ApprovedBy(times[approved], states[approved], events[approved], responses[approved], events[j].data.request.value)
      && events[approved].claims.user == events[j].data.user
  {
    hide Inv;
    StepOf(states, times, events, responses, j);
    hide Execution;
    var d := events[j].data;
    var id := d.request.value;
    assert LoginAccepted(states[j], times[j], d);
    hide Step, ApprovedBy;
    approved := FindApproval(states, times, events, responses, j, id);
    asked := AskedBefore(states, times, events, responses, approved, id);
  }

  /** A purge removes no request that a login, now or later, would still accept. */
  lemma PurgeIsSafe(s: State, now: Instant, later: Instant, u: UserId, id: nat, ip: string, code: string)
    requires now <= later && RequestAccepted(s, later, u, id, ip, code)
    ensures RequestAccepted(Purged(s, now), later, u, id, ip, code)
  {
  }

  /** A login does not use its request up: until the five minutes are over the same one opens further sessions. */
  lemma RequestsAreReusable(s: State, now: Instant, d: LoginData, s': State, r: Response, later: Instant)
    requires Step(now, s, Login(d), s', r) && d.request.Some? && LoginAccepted(s, now, d)
    requires now <= later
    ensures LoginAccepted(s', later, d) <==> later < s.requests[d.request.value].created + 5 * MINUTE
  {
  }
}
