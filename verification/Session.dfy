/**
  Sessions: security stamps with their two-minute exception, per-device
  refresh tokens, the enabled flag and login through an approved request.
  Stamps, tokens and identifiers are drawn fresh from one counter.
 */
module Session {
  import opened Wrappers

  type UserId = nat
  type DeviceId = string
  type Instant = int

  const SECOND: int := 1_000_000_000
  const MINUTE: int := 60 * SECOND

  /** Whole seconds since the epoch, as stored in a stamp exception. */
  function Timestamp(t: Instant): int { t / SECOND }

  datatype StampException = StampException(routes: seq<string>, stamp: nat, expire: int)

  /** A user invited but not registered has no secret; `initialized` says whether the account has its keys. */
  datatype User = User(
    enabled: bool, secret: Option<string>, apiKey: Option<string>, initialized: bool, stamp: nat, exemption: Option<StampException>)

  datatype Device = Device(kind: int, token: nat)

  datatype AuthRequest = AuthRequest(
    user: UserId, device: DeviceId, kind: int, ip: string, accessCode: string, publicKey: string, created: Instant,
    responder: Option<DeviceId>, encKey: Option<string>, passwordHash: Option<string>, approved: Option<bool>,
    answered: Option<Instant>)

  datatype State = State(
    users: map<UserId, User>, devices: map<(UserId, DeviceId), Device>, requests: map<nat, AuthRequest>, next: nat)

  /** What an access token carries. */
  datatype Claims = Claims(user: UserId, device: DeviceId, stamp: nat)

  datatype Response = Denied | Granted | Tokens(access: Claims, refresh: Option<nat>)

  /** How the session behind a refresh token was opened; only password sessions can be refreshed. */
  datatype Method = Password | ApiKey

  // ---------- authenticated operations and their routes ----------

  /** What protected actions ask for: the master password or a code sent by mail, not both. */
  datatype Proof = MasterPassword(text: string) | OneTimeCode(accepted: bool) | NoProof

  predicate Proven(user: User, proof: Proof) {
    match proof
    case MasterPassword(text) => user.secret == Some(text)
    case OneTimeCode(accepted) => accepted
    case NoProof => false
  }

  datatype Operation =
    | Read(name: Option<string>)
    | ChangePassword(password: string, new_: string)
    | InitPassword(new_: string, withKeys: bool)
    | ChangeKdf(password: string, new_: string, accepted: bool)
    | RotateKeys(password: string, new_: string, accepted: bool)
    | ChangeEmail(password: string, new_: string, accepted: bool)
    | PostKeys
    | NewStamp(proof: Proof)
    | NewApiKey(proof: Proof, rotate: bool, generated: string)
    | Answer(request: nat, device: DeviceId, approve: bool, encKey: string, hash: Option<string>)

  function Route(op: Operation): Option<string> {
    match op
    case Read(name) => name
    case ChangePassword(_, _) => Some("post_password")
    case InitPassword(_, _) => Some("post_set_password")
    case ChangeKdf(_, _, _) => Some("post_kdf")
    case RotateKeys(_, _, _) => Some("post_rotatekey")
    case ChangeEmail(_, _, _) => Some("post_email")
    case PostKeys => Some("post_keys")
    case NewStamp(_) => Some("post_sstamp")
    case NewApiKey(_, rotate, _) => Some(if rotate then "rotate_api_key" else "post_api_key")
    case Answer(_, _, _, _, _) => Some("put_auth_request")
  }

  const AFTER_PASSWORD: seq<string> := ["post_rotatekey", "get_contacts", "get_public_keys", "get_api_webauthn"]

  const AFTER_INIT: seq<string> := ["revision_date"]

  /** The credentials a login presents; `verified` and `secondFactor` sum up the mail and two-factor checks. */
  datatype LoginData = LoginData(
    user: UserId, device: DeviceId, kind: int, password: string, request: Option<nat>, ip: string,
    verified: bool, secondFactor: bool)

  datatype Event =
    | Invite
    | Register(existing: Option<UserId>, allowed: bool, password: string, withKeys: bool)
    | Login(data: LoginData)
    | LoginApiKey(user: UserId, device: DeviceId, kind: int, apiKey: string)
    | Refresh(token: nat, method_: Method)
    | Call(claims: Claims, op: Operation)
    | Ask(user: UserId, device: DeviceId, kind: int, ip: string, accessCode: string, publicKey: string)
    | Disable(user: UserId)
    | Enable(user: UserId)
    | Deauthorize(user: UserId)
    | DeleteUser(user: UserId)
    | PurgeRequests

  // ---------- pieces of state change ----------

  function SetUser(s: State, u: UserId, row: User): State { s.(users := s.users[u := row]) }

  function WithException(s: State, now: Instant, u: UserId, routes: seq<string>): State
    requires u in s.users
  {
    SetUser(s, u, s.users[u].(exemption := Some(StampException(routes, s.users[u].stamp, Timestamp(now + 2 * MINUTE)))))
  }

  function WithSecret(s: State, u: UserId, secret: string): State
    requires u in s.users
  {
    SetUser(s, u, s.users[u].(secret := Some(secret)))
  }

  function WithFreshStamp(s: State, u: UserId): State
    requires u in s.users
  {
    SetUser(s, u, s.users[u].(stamp := s.next)).(next := s.next + 1)
  }

  function WithoutDevices(s: State, u: UserId): State {
    s.(devices := map k | k in s.devices && k.0 != u :: s.devices[k])
  }

  /** Every device of the user has a fresh token of its own; nothing else has changed. */
  ghost predicate Rotated(s: State, s': State, u: UserId) {
    && s' == s.(devices := s'.devices, next := s'.next) && s.next <= s'.next && s'.devices.Keys == s.devices.Keys
    && (forall k :: k in s.devices && k.0 != u ==> s'.devices[k] == s.devices[k])
    && (forall k :: k in s.devices && k.0 == u ==>
          s'.devices[k].kind == s.devices[k].kind && s.next <= s'.devices[k].token < s'.next)
    && (forall k, l :: k in s.devices && l in s.devices && k.0 == u && l.0 == u && k != l ==>
          s'.devices[k].token != s'.devices[l].token)
  }

  /** A rotation that has still to reach some of the user's devices. */
  ghost predicate RotatedExcept(s: State, s': State, u: UserId, todo: set<(UserId, DeviceId)>) {
    && s' == s.(devices := s'.devices, next := s'.next) && s.next <= s'.next && s'.devices.Keys == s.devices.Keys
    && (forall k :: k in s.devices && (k.0 != u || k in todo) ==> s'.devices[k] == s.devices[k])
    && (forall k :: k in s.devices && k.0 == u && k !in todo ==>
          s'.devices[k].kind == s.devices[k].kind && s.next <= s'.devices[k].token < s'.next)
    && (forall k, l :: k in s.devices && l in s.devices && k.0 == u && l.0 == u && k !in todo && l !in todo && k != l ==>
          s'.devices[k].token != s'.devices[l].token)
  }

  lemma RotateOne(s: State, t: State, u: UserId, todo: set<(UserId, DeviceId)>, k: (UserId, DeviceId))
    requires RotatedExcept(s, t, u, todo) && k in todo && k in s.devices && k.0 == u
    ensures k in t.devices
    ensures RotatedExcept(s, t.(devices := t.devices[k := t.devices[k].(token := t.next)], next := t.next + 1), u, todo - {k})
  {
    var t' := t.(devices := t.devices[k := t.devices[k].(token := t.next)], next := t.next + 1);
    assert t'.devices.Keys == s.devices.Keys;
    assert forall l :: l in s.devices && l != k ==> t'.devices[l] == t.devices[l];
  }

  lemma RotationBegins(s: State, u: UserId, todo: set<(UserId, DeviceId)>)
    requires forall k :: k in s.devices && k.0 == u ==> k in todo
    ensures RotatedExcept(s, s, u, todo)
  {
  }

  lemma RotationEnds(s: State, t: State, u: UserId)
    requires RotatedExcept(s, t, u, {})
    ensures Rotated(s, t, u)
  {
  }

  /** A security stamp reset, up to the order in which devices get their tokens. */
  ghost predicate StampReset(s: State, s': State, u: UserId)
    requires u in s.users
  {
    Rotated(WithFreshStamp(s, u), s', u)
  }

  /** The stamp check: expiry, then route, then stamp; an expired exception is forgotten. */
  function Authenticate(now: Instant, s: State, c: Claims, route: Option<string>): (State, bool) {
    if (c.user, c.device) !in s.devices || c.user !in s.users then (s, false) else
    var user := s.users[c.user];
    if user.stamp == c.stamp then (s, true)
    else if user.exemption.None? || route.None? then (s, false)
    else if Timestamp(now) > user.exemption.value.expire then (SetUser(s, c.user, user.(exemption := None)), false)
    else if route.value !in user.exemption.value.routes then (s, false)
    else (s, user.exemption.value.stamp == c.stamp)
  }

  /** The checks on a login with an approved request. */
  predicate RequestAccepted(s: State, now: Instant, u: UserId, id: nat, ip: string, code: string) {
    && id in s.requests && s.requests[id].user == u
    && s.requests[id].approved == Some(true)
    && now < s.requests[id].created + 5 * MINUTE
    && ip == s.requests[id].ip && code == s.requests[id].accessCode
  }

  predicate LoginAccepted(s: State, now: Instant, d: LoginData) {
    && d.user in s.users && s.users[d.user].enabled
    && (if d.request.Some? then RequestAccepted(s, now, d.user, d.request.value, d.ip, d.password)
        else s.users[d.user].secret == Some(d.password))
    && d.verified
  }

  /** Finds the device of a login or adds it with a fresh token. */
  function WithDevice(s: State, u: UserId, d: DeviceId, kind: int): State {
    if (u, d) in s.devices then s
    else s.(devices := s.devices[(u, d) := Device(kind, s.next)], next := s.next + 1)
  }

  function Approved(r: AuthRequest, now: Instant, op: Operation): AuthRequest
    requires op.Answer?
  {
    r.(approved := Some(true), encKey := Some(op.encKey), passwordHash := op.hash, responder := Some(op.device),
       answered := Some(now))
  }

  function Purged(s: State, now: Instant): State {
    s.(requests := map id | id in s.requests && !(s.requests[id].created < now - 15 * MINUTE) :: s.requests[id])
  }

  function Refreshed(s: State, k: (UserId, DeviceId), token: nat, m: Method): Response {
    if k.0 !in s.users || m.ApiKey? then Denied
    else Tokens(Claims(k.0, k.1, s.users[k.0].stamp), Some(token))
  }

  // ---------- one step ----------

  /** The effect of an operation on behalf of an authenticated user. */
  ghost predicate Operated(now: Instant, s: State, c: Claims, op: Operation, s': State, r: Response)
    requires c.user in s.users
  {
    var u := c.user;
    match op
    case Read(_) => s' == s && r == Granted
    case ChangePassword(password, new_) =>
      if s.users[u].secret != Some(password) then s' == s && r == Denied
      else StampReset(WithException(WithSecret(s, u, new_), now, u, AFTER_PASSWORD), s', u) && r == Granted
    case InitPassword(new_, withKeys) =>
      if s.users[u].initialized then s' == s && r == Denied
      else
        var t := WithException(WithSecret(s, u, new_), now, u, AFTER_INIT);
        s' == SetUser(t, u, t.users[u].(initialized := withKeys)) && r == Granted
    case ChangeKdf(password, new_, accepted) =>
      if s.users[u].secret != Some(password) || !accepted then s' == s && r == Denied
      else StampReset(WithSecret(s, u, new_), s', u) && r == Granted
    case RotateKeys(password, new_, accepted) =>
      if s.users[u].secret != Some(password) || !accepted then s' == s && r == Denied
      else StampReset(WithSecret(s, u, new_), s', u) && r == Granted
    case ChangeEmail(password, new_, accepted) =>
      if s.users[u].secret != Some(password) || !accepted then s' == s && r == Denied
      else StampReset(WithSecret(s, u, new_), s', u) && r == Granted
    case PostKeys => s' == SetUser(s, u, s.users[u].(initialized := true)) && r == Granted
    case NewStamp(proof) =>
      if !Proven(s.users[u], proof) then s' == s && r == Denied
      else r == Granted && exists t :: StampReset(s, t, u) && s' == WithoutDevices(t, u)
    case NewApiKey(proof, rotate, generated) =>
      if !Proven(s.users[u], proof) then s' == s && r == Denied
      else
        && s' == (if rotate || s.users[u].apiKey.None? then SetUser(s, u, s.users[u].(apiKey := Some(generated))) else s)
        && r == Granted
    case Answer(id, device, approve, _, _) =>
      if id !in s.requests || s.requests[id].user != u || c.device != device || s.requests[id].approved.Some?
      then s' == s && r == Denied
      else
        && s' == s.(requests := if approve then s.requests[id := Approved(s.requests[id], now, op)] else s.requests - {id})
        && r == Granted
  }

  ghost predicate Step(now: Instant, s: State, e: Event, s': State, r: Response) {
    match e
    case Invite =>
      s' == SetUser(s, s.next, User(true, None, None, false, s.next + 1, None)).(next := s.next + 2) && r == Granted
    case Register(existing, allowed, password, withKeys) =>
      if !allowed then s' == s && r == Denied
      else if existing.None? then
        && s' == SetUser(s, s.next, User(true, Some(password), None, withKeys, s.next + 1, None)).(next := s.next + 2)
        && r == Granted
      else if existing.value !in s.users || s.users[existing.value].secret.Some? then s' == s && r == Denied
      else
        var row := s.users[existing.value];
        StampReset(SetUser(s, existing.value, row.(secret := Some(password), initialized := row.initialized || withKeys)), s', existing.value)
        && r == Granted
    case Login(d) =>
      if !LoginAccepted(s, now, d) then s' == s && r == Denied
      else
        && s' == WithDevice(s, d.user, d.device, d.kind)
        && r == if d.secondFactor
                then Tokens(Claims(d.user, d.device, s.users[d.user].stamp), Some(s'.devices[(d.user, d.device)].token))
                else Denied
    case LoginApiKey(u, d, kind, key) =>
      if u !in s.users || !s.users[u].enabled || s.users[u].apiKey != Some(key) then s' == s && r == Denied
      else s' == WithDevice(s, u, d, kind) && r == Tokens(Claims(u, d, s.users[u].stamp), None)
    case Refresh(token, m) =>
      && s' == s
      && (|| (r == Denied && forall k :: k in s.devices ==> s.devices[k].token != token)
          || (exists k :: k in s.devices && s.devices[k].token == token && r == Refreshed(s, k, token, m)))
    case Call(c, op) =>
      var (t, ok) := Authenticate(now, s, c, Route(op));
      if !ok then s' == t && r == Denied else Operated(now, t, c, op, s', r)
    case Ask(u, d, kind, ip, code, key) =>
      if u !in s.users || (u, d) !in s.devices || s.devices[(u, d)].kind != kind then s' == s && r == Denied
      else
        && s' == s.(requests := s.requests[s.next := AuthRequest(u, d, kind, ip, code, key, now, None, None, None, None, None)],
                    next := s.next + 1)
        && r == Granted
    case Disable(u) =>
      if u !in s.users then s' == s && r == Denied
      else r == Granted && exists t :: StampReset(s, t, u) && s' == WithoutDevices(SetUser(t, u, t.users[u].(enabled := false)), u)
    case Enable(u) =>
      if u !in s.users then s' == s && r == Denied
      else s' == SetUser(s, u, s.users[u].(enabled := true)) && r == Granted
    case Deauthorize(u) =>
      if u !in s.users then s' == s && r == Denied
      else StampReset(WithoutDevices(s, u), s', u) && r == Granted
    case DeleteUser(u) =>
      if u !in s.users then s' == s && r == Denied
      else s' == WithoutDevices(s, u).(users := s.users - {u}) && r == Granted
    case PurgeRequests => s' == Purged(s, now) && r == Granted
  }

  // ---------- the server's state ----------

  class Sessions {
    var users: map<UserId, User>
    var devices: map<(UserId, DeviceId), Device>
    var requests: map<nat, AuthRequest>
    var next: nat

    function Snapshot(): State
      reads this
    {
      State(users, devices, requests, next)
    }

    constructor ()
      ensures Snapshot() == State(map[], map[], map[], 0)
    {
      users, devices, requests, next := map[], map[], map[], 0;
    }

    /** Gives every device of the user a token of its own, one after the other. */
    method RotateTokens(u: UserId)
      modifies this
      ensures Rotated(old(Snapshot()), Snapshot(), u)
    {
      hide RotatedExcept, Rotated;
      var todo := set k | k in devices && k.0 == u;
      ghost var s := Snapshot();
      RotationBegins(s, u, todo);
      while todo != {}
        invariant forall k :: k in todo ==> k in s.devices && k.0 == u
        invariant RotatedExcept(s, Snapshot(), u, todo)
        decreases todo
      {
        var k :| k in todo;
        RotateOne(s, Snapshot(), u, todo, k);
        devices := devices[k := devices[k].(token := next)];
        next := next + 1;
        todo := todo - {k};
      }
      RotationEnds(s, Snapshot(), u);
    }

    method ResetStamp(u: UserId)
      requires u in users
      modifies this
      ensures StampReset(old(Snapshot()), Snapshot(), u)
    {
      users := users[u := users[u].(stamp := next)];
      next := next + 1;
      RotateTokens(u);
    }

    method SetPassword(now: Instant, u: UserId, new_: string, reset: bool, routes: Option<seq<string>>)
      requires u in users
      modifies this
      ensures var t := WithSecret(old(Snapshot()), u, new_);
        var t' := if routes.Some? then WithException(t, now, u, routes.value) else t;
        if reset then StampReset(t', Snapshot(), u) else Snapshot() == t'
    {
      users := users[u := users[u].(secret := Some(new_))];
      if routes.Some? {
        var exemption := StampException(routes.value, users[u].stamp, Timestamp(now + 2 * MINUTE));
        users := users[u := users[u].(exemption := Some(exemption))];
      }
      if reset {
        ResetStamp(u);
      }
    }

    method DeleteDevices(u: UserId)
      modifies this
      ensures Snapshot() == WithoutDevices(old(Snapshot()), u)
    {
      devices := map k | k in devices && k.0 != u :: devices[k];
    }

    method CheckStamp(now: Instant, c: Claims, route: Option<string>) returns (ok: bool)
      modifies this
      ensures (Snapshot(), ok) == Authenticate(now, old(Snapshot()), c, route)
    {
      if (c.user, c.device) !in devices || c.user !in users {
        return false;
      }
      var user := users[c.user];
      if user.stamp != c.stamp {
        if user.exemption.None? || route.None? {
          return false;
        }
        var exemption := user.exemption.value;
        if Timestamp(now) > exemption.expire {
          users := users[c.user := user.(exemption := None)];
          return false;
        } else if route.value !in exemption.routes {
          return false;
        } else if exemption.stamp != c.stamp {
          return false;
        }
      }
      return true;
    }

    method Operate(now: Instant, c: Claims, op: Operation) returns (r: Response)
      requires c.user in users
      modifies this
      ensures Operated(now, old(Snapshot()), c, op, Snapshot(), r)
    {
      var u := c.user;
      match op {
      case Read(_) =>
      case ChangePassword(password, new_) =>
        if users[u].secret != Some(password) { return Denied; }
        SetPassword(now, u, new_, true, Some(AFTER_PASSWORD));
      case InitPassword(new_, withKeys) =>
        if users[u].initialized { return Denied; }
        SetPassword(now, u, new_, false, Some(AFTER_INIT));
        if withKeys {
          users := users[u := users[u].(initialized := true)];
        }
      case ChangeKdf(password, new_, accepted) =>
        if users[u].secret != Some(password) || !accepted { return Denied; }
        SetPassword(now, u, new_, true, None);
      case RotateKeys(password, new_, accepted) =>
        if users[u].secret != Some(password) || !accepted { return Denied; }
        SetPassword(now, u, new_, true, None);
      case ChangeEmail(password, new_, accepted) =>
        if users[u].secret != Some(password) || !accepted { return Denied; }
        SetPassword(now, u, new_, true, None);
      case PostKeys =>
        users := users[u := users[u].(initialized := true)];
      case NewStamp(proof) =>
        if !Proven(users[u], proof) { return Denied; }
        ResetStamp(u);
        DeleteDevices(u);
      case NewApiKey(proof, rotate, generated) =>
        if !Proven(users[u], proof) { return Denied; }
        if rotate || users[u].apiKey.None? {
          users := users[u := users[u].(apiKey := Some(generated))];
        }
      case Answer(id, device, approve, encKey, hash) =>
        if id !in requests || requests[id].user != u || c.device != device { return Denied; }
        var request := requests[id];
        if request.approved.Some? { return Denied; }
        if approve {
          request := request.(approved := Some(approve), encKey := Some(encKey), passwordHash := hash);
          request := request.(responder := Some(device), answered := Some(now));
          requests := requests[id := request];
        } else {
          requests := requests - {id};
        }
      }
      return Granted;
    }

    method GetDevice(u: UserId, d: DeviceId, kind: int) returns (device: Device)
      modifies this
      ensures Snapshot() == WithDevice(old(Snapshot()), u, d, kind)
      ensures (u, d) in devices && device == devices[(u, d)]
    {
      if (u, d) in devices {
        device := devices[(u, d)];
      } else {
        device := Device(kind, next);
        next := next + 1;
        devices := devices[(u, d) := device];
      }
    }

    method PasswordLogin(now: Instant, d: LoginData) returns (r: Response)
      modifies this
      ensures Step(now, old(Snapshot()), Login(d), Snapshot(), r)
    {
      if d.user !in users || !users[d.user].enabled {
        return Denied;
      }
      if d.request.Some? {
        var id := d.request.value;
        if id !in requests || requests[id].user != d.user {
          return Denied;
        }
        var request := requests[id];
        var expired := now >= request.created + 5 * MINUTE;
        if request.approved != Some(true) || expired || d.ip != request.ip || d.password != request.accessCode {
          return Denied;
        }
      } else if users[d.user].secret != Some(d.password) {
        return Denied;
      }
      if !d.verified {
        return Denied;
      }
      var device := GetDevice(d.user, d.device, d.kind);
      if !d.secondFactor {
        return Denied;
      }
      return Tokens(Claims(d.user, d.device, users[d.user].stamp), Some(device.token));
    }

    method RefreshTokens(now: Instant, token: nat, m: Method) returns (r: Response)
      ensures Step(now, Snapshot(), Refresh(token, m), Snapshot(), r)
    {
      var found := set k | k in devices && devices[k].token == token;
      if found == {} {
        assert forall k :: k in devices ==> (devices[k].token == token ==> k in found);
        return Denied;
      }
      var k :| k in found;
      if k.0 !in users || m.ApiKey? {
        return Denied;
      }
      return Tokens(Claims(k.0, k.1, users[k.0].stamp), Some(devices[k].token));
    }

    method Enroll(now: Instant, existing: Option<UserId>, allowed: bool, password: string, withKeys: bool) returns (r: Response)
      modifies this
      ensures Step(now, old(Snapshot()), Register(existing, allowed, password, withKeys), Snapshot(), r)
    {
      if !allowed {
        return Denied;
      }
      if existing.None? {
        users := users[next := User(true, Some(password), None, withKeys, next + 1, None)];
        next := next + 2;
      } else {
        var u := existing.value;
        if u !in users || users[u].secret.Some? {
          return Denied;
        }
        SetPassword(now, u, password, false, None);
        if withKeys {
          users := users[u := users[u].(initialized := true)];
        }
        ResetStamp(u);
      }
      return Granted;
    }

    method AskApproval(now: Instant, u: UserId, d: DeviceId, kind: int, ip: string, code: string, key: string) returns (r: Response)
      modifies this
      ensures Step(now, old(Snapshot()), Ask(u, d, kind, ip, code, key), Snapshot(), r)
    {
      if u !in users || (u, d) !in devices || devices[(u, d)].kind != kind {
        return Denied;
      }
      requests := requests[next := AuthRequest(u, d, kind, ip, code, key, now, None, None, None, None, None)];
      next := next + 1;
      return Granted;
    }

    method DisableUser(now: Instant, u: UserId) returns (r: Response)
      modifies this
      ensures Step(now, old(Snapshot()), Disable(u), Snapshot(), r)
    {
      if u !in users {
        return Denied;
      }
      ResetStamp(u);
      assert StampReset(old(Snapshot()), Snapshot(), u);
      users := users[u := users[u].(enabled := false)];
      DeleteDevices(u);
      return Granted;
    }

    /** Deletes requests older than a quarter of an hour, one after the other. */
    method PurgeOldRequests(now: Instant)
      modifies this
      ensures Snapshot() == Purged(old(Snapshot()), now)
    {
      var todo := set id | id in requests && requests[id].created < now - 15 * MINUTE;
      ghost var all := todo;
      while todo != {}
        invariant todo <= all
        invariant Snapshot() == old(Snapshot()).(requests := old(requests) - (all - todo))
        decreases todo
      {
        var id :| id in todo;
        requests := requests - {id};
        todo := todo - {id};
      }
      assert requests == Purged(old(Snapshot()), now).requests;
    }

    method Handle(now: Instant, e: Event) returns (r: Response)
      modifies this
      ensures Step(now, old(Snapshot()), e, Snapshot(), r)
    {
      match e
      case Invite =>
        users := users[next := User(true, None, None, false, next + 1, None)];
        next := next + 2;
        return Granted;
      case Register(existing, allowed, password, withKeys) => r := Enroll(now, existing, allowed, password, withKeys);
      case Login(d) => r := PasswordLogin(now, d);
      case LoginApiKey(u, d, kind, key) =>
        if u !in users || !users[u].enabled || users[u].apiKey != Some(key) { return Denied; }
        var device := GetDevice(u, d, kind);
        return Tokens(Claims(u, d, users[u].stamp), None);
      case Refresh(token, m) => r := RefreshTokens(now, token, m);
      case Call(c, op) =>
        var ok := CheckStamp(now, c, Route(op));
        if !ok { return Denied; }
        r := Operate(now, c, op);
      case Ask(u, d, kind, ip, code, key) => r := AskApproval(now, u, d, kind, ip, code, key);
      case Disable(u) => r := DisableUser(now, u);
      case Enable(u) =>
        if u !in users { return Denied; }
        users := users[u := users[u].(enabled := true)];
        return Granted;
      case Deauthorize(u) =>
        if u !in users { return Denied; }
        DeleteDevices(u);
        ResetStamp(u);
        return Granted;
      case DeleteUser(u) =>
        if u !in users { return Denied; }
        DeleteDevices(u);
        users := users - {u};
        return Granted;
      case PurgeRequests =>
        PurgeOldRequests(now);
        return Granted;
    }
  }
}
