/**
  The subscription table behind the anonymous notification hub: a map from
  request token to subscribers and a map from client address to a connection
  counter. Each map entry is locked separately and only for one access, so
  opening a connection is two atomic steps (reserve, push) and closing one is
  four (retain, remove-if-empty, decrement, remove-if-zero). The steps of any
  number of connections interleave freely.
 */
module AnonymousHub {
  import opened Sequences

  const MAX_CONNECTIONS_PER_IP: nat := 25

  type IpAddr = string
  type Token = string
  type EntryId = nat
  type ConnId = nat

  /** The two concurrent maps; a subscriber is represented by its entry uuid. */
  datatype Tables = Tables(subscribers: map<Token, seq<EntryId>>, counters: map<IpAddr, nat>)

  // ---------- the atomic steps ----------

  function Counter(t: Tables, a: IpAddr): nat {
    if a in t.counters then t.counters[a] else 0
  }

  function Listed(t: Tables, k: Token): seq<EntryId> {
    if k in t.subscribers then t.subscribers[k] else []
  }

  function Reserve(t: Tables, a: IpAddr): (Tables, bool) {
    var n := Counter(t, a);
    if n >= MAX_CONNECTIONS_PER_IP then (t.(counters := t.counters[a := n]), false)
    else (t.(counters := t.counters[a := n + 1]), true)
  }

  function Push(t: Tables, k: Token, e: EntryId): Tables {
    t.(subscribers := t.subscribers[k := Listed(t, k) + [e]])
  }

  function Retain(t: Tables, k: Token, e: EntryId): Tables {
    if k in t.subscribers then t.(subscribers := t.subscribers[k := Without(t.subscribers[k], {e})]) else t
  }

  function RemoveIfEmpty(t: Tables, k: Token): Tables {
    if k in t.subscribers && t.subscribers[k] == [] then t.(subscribers := t.subscribers - {k}) else t
  }

  /** The flag tells the caller whether the counter it left behind is zero. */
  function Decrement(t: Tables, a: IpAddr): (Tables, bool) {
    if a in t.counters then
      var n := if t.counters[a] == 0 then 0 else t.counters[a] - 1;
      (t.(counters := t.counters[a := n]), n == 0)
    else (t, false)
  }

  function RemoveIfZero(t: Tables, a: IpAddr): Tables {
    if a in t.counters && t.counters[a] == 0 then t.(counters := t.counters - {a}) else t
  }

  function OpenAlone(t: Tables, a: IpAddr, k: Token, e: EntryId): (Tables, bool) {
    var (t', ok) := Reserve(t, a);
    if ok then (Push(t', k, e), true) else (t', false)
  }

  function ReleaseAlone(t: Tables, a: IpAddr): Tables {
    var (t', zero) := Decrement(t, a);
    if zero then RemoveIfZero(t', a) else t'
  }

  function DropAlone(t: Tables, a: IpAddr, k: Token, e: EntryId): Tables {
    ReleaseAlone(RemoveIfEmpty(Retain(t, k, e), k), a)
  }

  // ---------- the table as the program holds it ----------

  class Subscriptions {
    var subscribers: map<Token, seq<EntryId>>
    var counters: map<IpAddr, nat>

    function Snapshot(): Tables reads this { Tables(subscribers, counters) }

    constructor ()
      ensures Snapshot() == Tables(map[], map[])
    {
      subscribers, counters := map[], map[];
    }

    /** Takes a slot for this address unless it already holds the maximum. */
    method TryReserve(addr: IpAddr) returns (ok: bool)
      modifies this`counters
      ensures (Snapshot(), ok) == Reserve(old(Snapshot()), addr)
    {
      if addr !in counters {
        counters := counters[addr := 0];
      }
      if counters[addr] >= MAX_CONNECTIONS_PER_IP {
        assert counters == old(counters)[addr := counters[addr]];
        return false;
      }
      counters := counters[addr := counters[addr] + 1];
      assert counters == old(counters)[addr := counters[addr]];
      return true;
    }

    method PushSubscriber(token: Token, entry: EntryId)
      modifies this`subscribers
      ensures Snapshot() == Push(old(Snapshot()), token, entry)
    {
      if token !in subscribers {
        subscribers := subscribers[token := []];
      }
      subscribers := subscribers[token := subscribers[token] + [entry]];
    }

    /** Registration: a slot first, then the subscriber; a refusal subscribes nobody. */
    method Open(addr: IpAddr, token: Token, entry: EntryId) returns (ok: bool)
      modifies this
      ensures (Snapshot(), ok) == OpenAlone(old(Snapshot()), addr, token, entry)
    {
      ok := TryReserve(addr);
      if ok {
        PushSubscriber(token, entry);
      }
    }

    method RetainOthers(token: Token, entry: EntryId)
      modifies this`subscribers
      ensures Snapshot() == Retain(old(Snapshot()), token, entry)
    {
      if token in subscribers {
        subscribers := subscribers[token := Without(subscribers[token], {entry})];
      }
    }

    method RemoveEmptyList(token: Token)
      modifies this`subscribers
      ensures Snapshot() == RemoveIfEmpty(old(Snapshot()), token)
    {
      if token in subscribers && subscribers[token] == [] {
        subscribers := subscribers - {token};
      }
    }

    method DecrementCounter(addr: IpAddr) returns (empty: bool)
      modifies this`counters
      ensures (Snapshot(), empty) == Decrement(old(Snapshot()), addr)
    {
      empty := false;
      if addr in counters {
        var n := if counters[addr] == 0 then 0 else counters[addr] - 1;
        counters := counters[addr := n];
        empty := n == 0;
      }
    }

    method RemoveZeroCounter(addr: IpAddr)
      modifies this`counters
      ensures Snapshot() == RemoveIfZero(old(Snapshot()), addr)
    {
      if addr in counters && counters[addr] == 0 {
        counters := counters - {addr};
      }
    }

    /** Gives back a slot: the counter's lock is dropped between the two accesses. */
    method Release(addr: IpAddr)
      modifies this`counters
      ensures Snapshot() == ReleaseAlone(old(Snapshot()), addr)
    {
      var empty := DecrementCounter(addr);
      if empty {
        RemoveZeroCounter(addr);
      }
    }

    /** What dropping the guard of a closed connection does when nothing else runs. */
    method DropGuard(addr: IpAddr, token: Token, entry: EntryId)
      modifies this
      ensures Snapshot() == DropAlone(old(Snapshot()), addr, token, entry)
    {
      RetainOthers(token, entry);
      RemoveEmptyList(token);
      Release(addr);
    }
  }

  lemma WithoutAppended(s: seq<EntryId>, e: EntryId)
    requires e !in s
    ensures Without(s + [e], {e}) == s
  {
    WithoutSnoc(s, e, {e});
    WithoutNone(s, {e});
  }

  /** Opening a connection and dropping its guard, with nothing in between, restores both maps. */
  lemma OpenThenDropRestores(t: Tables, a: IpAddr, k: Token, e: EntryId)
    requires k in t.subscribers ==> t.subscribers[k] != [] && e !in t.subscribers[k]
    requires a in t.counters ==> t.counters[a] != 0
    requires OpenAlone(t, a, k, e).1
    ensures DropAlone(OpenAlone(t, a, k, e).0, a, k, e) == t
  {
    var t1 := Push(Reserve(t, a).0, k, e);
    hide Without;
    WithoutAppended(Listed(t, k), e);
    var t2 := RemoveIfEmpty(Retain(t1, k, e), k);
    assert t2.subscribers == t.subscribers;
    assert ReleaseAlone(t2, a).counters == t.counters;
  }

  /** Opening is refused exactly at the limit; a refusal lists nobody and counts nothing, an acceptance one of each. */
  lemma OpenExact(t: Tables, a: IpAddr, k: Token, e: EntryId)
    ensures var (t', ok) := OpenAlone(t, a, k, e);
      && (ok <==> Counter(t, a) < 25)
      && t'.subscribers == (if ok then t.subscribers[k := Listed(t, k) + [e]] else t.subscribers)
      && t'.counters.Keys == t.counters.Keys + {a}
      && (forall b :: Counter(t', b) == Counter(t, b) + if ok && b == a then 1 else 0)
  {
  }

  // ---------- all interleavings ----------

  /** How far a connection has got; a connection whose last step is done leaves the system. */
  datatype Phase = Reserved | Open | Retained | Unlisted | Released(zero: bool)

  datatype Conn = Conn(addr: IpAddr, token: Token, entry: EntryId, phase: Phase)

  /** `used` holds every entry uuid ever drawn, so that a new one is fresh. */
  datatype System = System(tables: Tables, conns: map<ConnId, Conn>, used: set<EntryId>)

  datatype Event =
    | TryOpen(id: ConnId, addr: IpAddr, token: Token, entry: EntryId)
    | Register(id: ConnId)
    | DropRetain(id: ConnId)
    | DropList(id: ConnId)
    | DropDecrement(id: ConnId)
    | DropCounter(id: ConnId)

  const Initial := System(Tables(map[], map[]), map[], {})

  predicate At(s: System, id: ConnId, p: Phase) {
    id in s.conns && s.conns[id].phase == p
  }

  predicate Enabled(s: System, e: Event) {
    match e
    case TryOpen(id, _, _, entry) => id !in s.conns && entry !in s.used
    case Register(id) => At(s, id, Reserved)
    case DropRetain(id) => At(s, id, Open)
    case DropList(id) => At(s, id, Retained)
    case DropDecrement(id) => At(s, id, Unlisted)
    case DropCounter(id) => id in s.conns && s.conns[id].phase.Released?
  }

  function Advance(s: System, id: ConnId, p: Phase, t: Tables): System
    requires id in s.conns
  {
    s.(tables := t, conns := s.conns[id := s.conns[id].(phase := p)])
  }

  /** One atomic step of one connection, everybody else standing still. */
  function Step(s: System, e: Event): System
    requires Enabled(s, e)
  {
    match e
    case TryOpen(id, a, k, entry) =>
      var (t, ok) := Reserve(s.tables, a);
      if ok then System(t, s.conns[id := Conn(a, k, entry, Reserved)], s.used + {entry})
      else s.(tables := t)
    case Register(id) =>
      Advance(s, id, Open, Push(s.tables, s.conns[id].token, s.conns[id].entry))
    case DropRetain(id) =>
      Advance(s, id, Retained, Retain(s.tables, s.conns[id].token, s.conns[id].entry))
    case DropList(id) =>
      Advance(s, id, Unlisted, RemoveIfEmpty(s.tables, s.conns[id].token))
    case DropDecrement(id) =>
      var (t, zero) := Decrement(s.tables, s.conns[id].addr);
      Advance(s, id, Released(zero), t)
    case DropCounter(id) =>
      var t := if s.conns[id].phase.zero then RemoveIfZero(s.tables, s.conns[id].addr) else s.tables;
      s.(tables := t, conns := s.conns - {id})
  }

  /** States a run passes through: it starts empty and each state follows by one enabled event. */
  ghost predicate Execution(states: seq<System>, events: seq<Event>) {
    && |states| == |events| + 1
    && states[0] == Initial
    && forall i :: 0 <= i < |events| ==> Enabled(states[i], events[i]) && states[i + 1] == Step(states[i], events[i])
  }

  /** Connections of an address that hold a slot: taken and not yet given back. */
  ghost function Holding(conns: map<ConnId, Conn>, a: IpAddr): set<ConnId> {
    set id | id in conns && conns[id].addr == a && !conns[id].phase.Released?
  }

  // ---------- the invariant ----------

  ghost predicate CountersExact(s: System) {
    forall a :: Counter(s.tables, a) == |Holding(s.conns, a)| <= MAX_CONNECTIONS_PER_IP
  }

  /** A zero counter is waiting for a connection that saw it become zero. */
  ghost predicate ZeroHasOwner(s: System) {
    forall a :: a in s.tables.counters && s.tables.counters[a] == 0 ==>
      exists id :: id in s.conns && s.conns[id].addr == a && s.conns[id].phase == Released(true)
  }

  /** An empty subscriber list is waiting for a connection that is about to remove it. */
  ghost predicate EmptyHasOwner(s: System) {
    forall k :: k in s.tables.subscribers && s.tables.subscribers[k] == [] ==>
      exists id :: id in s.conns && s.conns[id].token == k && s.conns[id].phase == Retained
  }

  /** The subscribers listed under a token are exactly its open connections, each once. */
  ghost predicate ListsExact(s: System) {
    && (forall k :: Distinct(Listed(s.tables, k)))
    && (forall k, e :: e in Listed(s.tables, k) ==> IsOpenEntry(s, k, e))
    && (forall id :: At(s, id, Open) ==> s.conns[id].entry in Listed(s.tables, s.conns[id].token))
  }

  ghost predicate IsOpenEntry(s: System, k: Token, e: EntryId) {
    exists id :: At(s, id, Open) && s.conns[id].token == k && s.conns[id].entry == e
  }

  ghost predicate EntriesUnique(s: System) {
    && (forall id :: id in s.conns ==> s.conns[id].entry in s.used)
    && (forall i, j :: i in s.conns && j in s.conns && i != j ==> s.conns[i].entry != s.conns[j].entry)
  }

  ghost predicate Inv(s: System) {
    CountersExact(s) && ZeroHasOwner(s) && EmptyHasOwner(s) && ListsExact(s) && EntriesUnique(s)
  }

  /** How many slots of an address one connection accounts for. */
  ghost function Slot(c: Conn, a: IpAddr): nat {
    if c.addr == a && !c.phase.Released? then 1 else 0
  }

  lemma HoldingWithout(conns: map<ConnId, Conn>, id: ConnId, a: IpAddr)
    ensures |Holding(conns, a)| == |Holding(conns, a) - {id}| + (if id in conns then Slot(conns[id], a) else 0)
  {
    if id in Holding(conns, a) {
      assert Holding(conns, a) == (Holding(conns, a) - {id}) + {id};
    } else {
      assert Holding(conns, a) == Holding(conns, a) - {id};
    }
  }

  lemma HoldingChanged(conns: map<ConnId, Conn>, id: ConnId, c: Conn, a: IpAddr)
    ensures |Holding(conns[id := c], a)| ==
            |Holding(conns, a)| - (if id in conns then Slot(conns[id], a) else 0) + Slot(c, a)
  {
    HoldingWithout(conns, id, a);
    HoldingWithout(conns[id := c], id, a);
    assert Holding(conns[id := c], a) - {id} == Holding(conns, a) - {id};
  }

  lemma HoldingLeft(conns: map<ConnId, Conn>, id: ConnId, a: IpAddr)
    requires id in conns && conns[id].phase.Released?
    ensures Holding(conns - {id}, a) == Holding(conns, a)
  {
  }

  lemma CounterAfter(s: System, e: Event, a: IpAddr)
    requires CountersExact(s) && Enabled(s, e)
    ensures Counter(Step(s, e).tables, a) == |Holding(Step(s, e).conns, a)| <= MAX_CONNECTIONS_PER_IP
  {
    assert Counter(s.tables, a) == |Holding(s.conns, a)| <= MAX_CONNECTIONS_PER_IP;
    if e.DropCounter? {
      HoldingLeft(s.conns, e.id, a);
    } else if e.TryOpen? {
      HoldingChanged(s.conns, e.id, Conn(e.addr, e.token, e.entry, Reserved), a);
    } else {
      HoldingChanged(s.conns, e.id, Step(s, e).conns[e.id], a);
      if e.DropDecrement? && s.conns[e.id].addr == a {
        assert e.id in Holding(s.conns, a);
      }
    }
  }

  lemma StepKeepsCounters(s: System, e: Event)
    requires Inv(s) && Enabled(s, e)
    ensures CountersExact(Step(s, e))
  {
    forall a ensures Counter(Step(s, e).tables, a) == |Holding(Step(s, e).conns, a)| <= MAX_CONNECTIONS_PER_IP {
      CounterAfter(s, e, a);
    }
  }

  lemma StepKeepsZeroOwner(s: System, e: Event)
    requires Inv(s) && Enabled(s, e)
    ensures ZeroHasOwner(Step(s, e))
  {
    var s' := Step(s, e);
    forall a | a in s'.tables.counters && s'.tables.counters[a] == 0
      ensures exists id :: id in s'.conns && s'.conns[id].addr == a && s'.conns[id].phase == Released(true)
    {
      if e.DropDecrement? && s.conns[e.id].addr == a {
        assert e.id in Holding(s.conns, a);
        assert Counter(s.tables, a) == |Holding(s.conns, a)|;
        assert s'.conns[e.id].phase == Released(true);
      } else {
        assert a in s.tables.counters && s.tables.counters[a] == 0;
        var id :| id in s.conns && s.conns[id].addr == a && s.conns[id].phase == Released(true);
        assert id in s'.conns && s'.conns[id] == s.conns[id];
      }
    }
  }

  lemma StepKeepsEmptyOwner(s: System, e: Event)
    requires Inv(s) && Enabled(s, e)
    ensures EmptyHasOwner(Step(s, e))
  {
    var s' := Step(s, e);
    forall k | k in s'.tables.subscribers && s'.tables.subscribers[k] == []
      ensures exists id :: id in s'.conns && s'.conns[id].token == k && s'.conns[id].phase == Retained
    {
      if e.DropRetain? && s.conns[e.id].token == k {
        assert s'.conns[e.id].phase == Retained;
      } else {
        assert k in s.tables.subscribers && s.tables.subscribers[k] == [];
        var id :| id in s.conns && s.conns[id].token == k && s.conns[id].phase == Retained;
        assert id in s'.conns && s'.conns[id] == s.conns[id];
      }
    }
  }

  /** What each step does to the list kept under each token. */
  lemma ListAfter(s: System, e: Event, k: Token)
    requires Inv(s) && Enabled(s, e)
    ensures Listed(Step(s, e).tables, k) ==
      (if e.Register? && s.conns[e.id].token == k then Listed(s.tables, k) + [s.conns[e.id].entry]
       else if e.DropRetain? && s.conns[e.id].token == k then Without(Listed(s.tables, k), {s.conns[e.id].entry})
       else Listed(s.tables, k))
  {
  }

  lemma StepKeepsDistinct(s: System, e: Event, k: Token)
    requires Inv(s) && Enabled(s, e)
    ensures Distinct(Listed(Step(s, e).tables, k))
  {
    ListAfter(s, e, k);
    assert Distinct(Listed(s.tables, k));
    if e.DropRetain? && s.conns[e.id].token == k {
      WithoutDistinct(Listed(s.tables, k), {s.conns[e.id].entry});
    } else if e.Register? && s.conns[e.id].token == k {
      assert s.conns[e.id].entry in Listed(s.tables, k) ==> IsOpenEntry(s, k, s.conns[e.id].entry);
    }
  }

  lemma StepKeepsLists(s: System, e: Event)
    requires Inv(s) && Enabled(s, e)
    ensures ListsExact(Step(s, e))
  {
    hide Without;
    var s' := Step(s, e);
    forall k ensures Distinct(Listed(s'.tables, k)) {
      StepKeepsDistinct(s, e, k);
    }
    forall k, x | x in Listed(s'.tables, k) ensures IsOpenEntry(s', k, x) {
      ListAfter(s, e, k);
      if e.Register? && s.conns[e.id].token == k && x == s.conns[e.id].entry {
        assert At(s', e.id, Open);
      } else {
        assert IsOpenEntry(s, k, x);
        var id :| At(s, id, Open) && s.conns[id].token == k && s.conns[id].entry == x;
        assert At(s', id, Open) && s'.conns[id] == s.conns[id];
      }
    }
    forall id | At(s', id, Open) ensures s'.conns[id].entry in Listed(s'.tables, s'.conns[id].token) {
      ListAfter(s, e, s'.conns[id].token);
      if !(e.Register? && e.id == id) {
        assert At(s, id, Open);
      }
    }
  }

  /** Every atomic step keeps the invariant. */
  lemma StepKeepsInvariant(s: System, e: Event)
    requires Inv(s) && Enabled(s, e)
    ensures Inv(Step(s, e))
  {
    StepKeepsCounters(s, e);
    StepKeepsZeroOwner(s, e);
    StepKeepsEmptyOwner(s, e);
    StepKeepsLists(s, e);
  }

  // ---------- theorems over every interleaving ----------

  lemma {:induction false} ReachableInvariant(states: seq<System>, events: seq<Event>, i: nat)
    requires Execution(states, events) && i < |states|
    ensures Inv(states[i])
  {
    if i == 0 {
      forall a ensures |Holding(Initial.conns, a)| == 0 {
        assert Holding(Initial.conns, a) == {};
      }
    } else {
      ReachableInvariant(states, events, i - 1);
      assert Enabled(states[i - 1], events[i - 1]);
      StepKeepsInvariant(states[i - 1], events[i - 1]);
    }
  }

  /** Counters count live reservations, stay within the limit, and a refusal means exactly that the limit is reached. */
  lemma CountersAreLiveReservations(states: seq<System>, events: seq<Event>, i: nat, a: IpAddr)
    requires Execution(states, events) && i < |states|
    ensures Counter(states[i].tables, a) == |Holding(states[i].conns, a)| <= 25
    ensures Reserve(states[i].tables, a).1 <==> |Holding(states[i].conns, a)| < 25
    ensures !Reserve(states[i].tables, a).1 ==> Reserve(states[i].tables, a).0 == states[i].tables
  {
    ReachableInvariant(states, events, i);
    assert Counter(states[i].tables, a) == |Holding(states[i].conns, a)|;
    if Counter(states[i].tables, a) >= MAX_CONNECTIONS_PER_IP {
      assert states[i].tables.counters[a := Counter(states[i].tables, a)] == states[i].tables.counters;
    }
  }

  /** While a connection is open it is listed, whatever the others do; what is listed is open. */
  lemma SubscribersAreTheOpenConnections(states: seq<System>, events: seq<Event>, i: nat, k: Token)
    requires Execution(states, events) && i < |states|
    ensures Distinct(Listed(states[i].tables, k))
    ensures forall e :: e in Listed(states[i].tables, k) <==> IsOpenEntry(states[i], k, e)
  {
    ReachableInvariant(states, events, i);
  }

  /** A step takes at most its own subscriber off any list, and only the retain step takes one off at all. */
  lemma OnlyOwnSubscriberRemoved(states: seq<System>, events: seq<Event>, i: nat, k: Token, e: EntryId)
    requires Execution(states, events) && i < |events|
    requires e in Listed(states[i].tables, k) && e !in Listed(states[i + 1].tables, k)
    ensures events[i].DropRetain? && At(states[i], events[i].id, Open)
    ensures states[i].conns[events[i].id].token == k && states[i].conns[events[i].id].entry == e
  {
    ReachableInvariant(states, events, i);
    assert Enabled(states[i], events[i]) && states[i + 1] == Step(states[i], events[i]);
    ListAfter(states[i], events[i], k);
  }

  /** Leftovers exist only while some closing connection still has its remove step to run. */
  lemma LeftoversHaveAnOwner(states: seq<System>, events: seq<Event>, i: nat)
    requires Execution(states, events) && i < |states|
    ensures forall a :: a in states[i].tables.counters && states[i].tables.counters[a] == 0 ==>
      exists id :: id in states[i].conns && states[i].conns[id].addr == a && Enabled(states[i], DropCounter(id))
    ensures forall k :: k in states[i].tables.subscribers && states[i].tables.subscribers[k] == [] ==>
      exists id :: id in states[i].conns && states[i].conns[id].token == k && Enabled(states[i], DropList(id))
  {
    ReachableInvariant(states, events, i);
    var s := states[i];
    forall a | a in s.tables.counters && s.tables.counters[a] == 0
      ensures exists id :: id in s.conns && s.conns[id].addr == a && Enabled(s, DropCounter(id))
    {
      var id :| id in s.conns && s.conns[id].addr == a && s.conns[id].phase == Released(true);
      assert Enabled(s, DropCounter(id));
    }
    forall k | k in s.tables.subscribers && s.tables.subscribers[k] == []
      ensures exists id :: id in s.conns && s.conns[id].token == k && Enabled(s, DropList(id))
    {
      var id :| id in s.conns && s.conns[id].token == k && s.conns[id].phase == Retained;
      assert Enabled(s, DropList(id));
    }
  }

  lemma NoneListed(l: seq<EntryId>)
    ensures l == [] || exists e :: e in l
  {
    if l != [] {
      assert l[0] in l;
    }
  }

  lemma EmptyWhenQuiescent(s: System)
    requires Inv(s) && s.conns == map[]
    ensures s.tables == Tables(map[], map[])
  {
    forall a ensures a !in s.tables.counters {
      assert Holding(s.conns, a) == {};
      assert Counter(s.tables, a) == 0;
    }
    forall k ensures k !in s.tables.subscribers {
      NoneListed(Listed(s.tables, k));
    }
  }

  /** Once nothing is open and every closer has finished, both maps are empty again. */
  lemma QuiescentTablesEmpty(states: seq<System>, events: seq<Event>, i: nat)
    requires Execution(states, events) && i < |states|
    requires states[i].conns == map[]
    ensures states[i].tables == Tables(map[], map[])
  {
    ReachableInvariant(states, events, i);
    EmptyWhenQuiescent(states[i]);
  }

  // ---------- closing down ----------

  /** Enabled steps from one state to another. */
  ghost predicate Path(states: seq<System>, events: seq<Event>) {
    && |states| == |events| + 1
    && forall i :: 0 <= i < |events| ==> Enabled(states[i], events[i]) && states[i + 1] == Step(states[i], events[i])
  }

  lemma Joined(a: seq<System>, x: seq<Event>, b: seq<System>, y: seq<Event>)
    requires Path(a, x) && Path(b, y) && a[|a| - 1] == b[0]
    ensures Path(a[..|a| - 1] + b, x + y)
  {
    var states := a[..|a| - 1] + b;
    forall i | 0 <= i < |x + y|
      ensures Enabled(states[i], (x + y)[i]) && states[i + 1] == Step(states[i], (x + y)[i])
    {
      if i < |x| {
        assert states[i] == a[i] && states[i + 1] == a[i + 1];
      } else {
        assert states[i] == b[i - |x|] && states[i + 1] == b[i - |x| + 1];
      }
    }
  }

  /** The step a connection takes next on its way out. */
  function NextStep(id: ConnId, p: Phase): Event {
    match p
    case Reserved => Register(id)
    case Open => DropRetain(id)
    case Retained => DropList(id)
    case Unlisted => DropDecrement(id)
    case Released(_) => DropCounter(id)
  }

  function Remaining(p: Phase): nat {
    match p
    case Reserved => 5
    case Open => 4
    case Retained => 3
    case Unlisted => 2
    case Released(_) => 1
  }

  /** From anywhere a connection can run to its end alone, without waiting for any other, and then it is gone. */
  lemma {:induction false} ConnectionEnds(s: System, id: ConnId) returns (states: seq<System>, events: seq<Event>)
    requires id in s.conns
    ensures Path(states, events) && states[0] == s && |events| == Remaining(s.conns[id].phase)
    ensures states[|events|].conns == s.conns - {id}
    decreases Remaining(s.conns[id].phase)
  {
    var e := NextStep(id, s.conns[id].phase);
    var s' := Step(s, e);
    if s.conns[id].phase.Released? {
      states, events := [s, s'], [e];
    } else {
      var rest, more := ConnectionEnds(s', id);
      states, events := [s] + rest, [e] + more;
      assert s'.conns - {id} == s.conns - {id};
      Joined([s, s'], [e], rest, more);
      assert [s, s'][..1] + rest == [s] + rest;
    }
  }

  lemma {:induction false} PathKeepsInvariant(states: seq<System>, events: seq<Event>, i: nat)
    requires Path(states, events) && i < |states| && Inv(states[0])
    ensures Inv(states[i])
  {
    if i > 0 {
      PathKeepsInvariant(states, events, i - 1);
      assert Enabled(states[i - 1], events[i - 1]);
      StepKeepsInvariant(states[i - 1], events[i - 1]);
    }
  }

  lemma OneCloses(s: System, id: ConnId) returns (states: seq<System>, events: seq<Event>)
    requires Inv(s) && id in s.conns
    ensures Path(states, events) && states[0] == s && |events| <= 5 && |states| == |events| + 1
    ensures Inv(states[|events|]) && states[|events|].conns == s.conns - {id} && |states[|events|].conns| == |s.conns| - 1
  {
    states, events := ConnectionEnds(s, id);
    PathKeepsInvariant(states, events, |events|);
    assert s.conns.Keys == (s.conns - {id}).Keys + {id};
  }

  /** Whatever has happened, all connections can close, each on its own, in at most five steps; then both maps are empty. */
  lemma {:induction false} EverythingCloses(s: System) returns (states: seq<System>, events: seq<Event>)
    requires Inv(s)
    ensures Path(states, events) && states[0] == s && |events| <= 5 * |s.conns|
    ensures states[|events|].conns == map[] && states[|events|].tables == Tables(map[], map[])
    decreases |s.conns|, 1
  {
    states, events := [s], [];
    assert Path(states, events);
    if s.conns == map[] {
      EmptyWhenQuiescent(s);
    } else {
      var id :| id in s.conns;
      states, events := CloseAllFrom(s, id);
    }
  }

  lemma CloseAllFrom(s: System, id: ConnId) returns (states: seq<System>, events: seq<Event>)
    requires Inv(s) && id in s.conns
    ensures Path(states, events) && states[0] == s && |events| <= 5 * |s.conns|
    ensures states[|events|].conns == map[] && states[|events|].tables == Tables(map[], map[])
    decreases |s.conns|, 0
  {
    hide Inv;
    var a, x := OneCloses(s, id);
    var b, y := EverythingCloses(a[|x|]);
    assert |b| == |y| + 1;
    hide Path;
    states, events := a[..|x|] + b, x + y;
    Joined(a, x, b, y);
  }

  /** In particular from every state of every run. */
  lemma CanAlwaysClose(states: seq<System>, events: seq<Event>, i: nat) returns (more: seq<System>, steps: seq<Event>)
    requires Execution(states, events) && i < |states|
    ensures Path(more, steps) && more[0] == states[i] && |steps| <= 5 * |states[i].conns|
    ensures more[|steps|].conns == map[] && more[|steps|].tables == Tables(map[], map[])
  {
    ReachableInvariant(states, events, i);
    more, steps := EverythingCloses(states[i]);
  }
}
