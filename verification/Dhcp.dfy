/**
 * The lease table of the DHCP server: eight addresses, each idle or held by a client that is
 * negotiating for it or bound to it.
 */
module Dhcp {
  datatype State = Idle | Select | Request | Bind

  // A MAC address is a number; 0 is the all-zero address that marks a free entry.
  type Mac = nat

  datatype Client = Client(state: State, timeout: nat, ip: nat, mac: Mac, lease: nat)

  datatype MsgType = DISCOVER | REQUEST | RELEASE | DECLINE | OTHER

  datatype Reply = NoReply | Nak(to: Mac) | Offer(addr: nat, to: Mac) | Ack(addr: nat, to: Mac)

  const CLIENTS: nat := 8
  const LEASE_TIME: nat := 315360000
  const TIMEOUT: nat := 10

  type Table = seq<Client>

  // What the scan of the table looks for.
  function IsHistoryOf(mac: Mac): Client -> bool {
    (c: Client) => c.state == Idle && c.mac == mac
  }

  function IsIdleAt(ip: nat): Client -> bool {
    (c: Client) => c.state == Idle && c.ip == ip
  }

  function IsOthersHistory(): Client -> bool {
    (c: Client) => c.state == Idle && c.mac != 0
  }

  function IsHeldBy(mac: Mac): Client -> bool {
    (c: Client) => c.state != Idle && c.mac == mac
  }

  function IsTaken(mac: Mac, ip: nat): Client -> bool {
    (c: Client) => c.state != Idle && c.mac != mac && c.ip == ip
  }

  // Index of the first (last) entry with property p, or -1.
  function First(t: Table, p: Client -> bool): (r: int)
    ensures -1 <= r < |t| && (r >= 0 ==> p(t[r]))
    ensures r == -1 ==> forall k :: 0 <= k < |t| ==> !p(t[k])
  {
    if t == [] then -1
    else
      var r := First(t[..|t| - 1], p);
      if r >= 0 then r else if p(t[|t| - 1]) then |t| - 1 else -1
  }

  function Last(t: Table, p: Client -> bool): (r: int)
    ensures -1 <= r < |t| && (r >= 0 ==> p(t[r]))
    ensures r == -1 ==> forall k :: 0 <= k < |t| ==> !p(t[k])
  {
    if t == [] then -1
    else if p(t[|t| - 1]) then |t| - 1
    else Last(t[..|t| - 1], p)
  }

  // Entry i is given up; the client's MAC stays as a history unless forget.
  function GiveUp(t: Table, i: int, forget: bool): (u: Table)
    requires 0 <= i < |t|
    ensures |u| == |t|
  {
    t[i := t[i].(state := Idle, mac := if forget then 0 else t[i].mac)]
  }

  // The entry for a message, before its MAC is filled in; -1 for none.
  function Choose(t: Table, m: MsgType, mac: Mac, req: nat, sid: nat, server: nat): (r: (Table, int))
    ensures |r.0| == |t| && -1 <= r.1 < |t|
  {
    var mine, asked := Last(t, IsHeldBy(mac)), First(t, IsIdleAt(req));
    var unavailable := First(t, IsTaken(mac, req)) >= 0;
    var forMe := sid == 0 || sid == server;
    match m
    case DISCOVER =>
      if mine >= 0 then
        if asked >= 0 then (GiveUp(t, mine, true), asked) else (GiveUp(t, mine, false), mine)
      else if asked >= 0 then (t, asked)
      else if First(t, IsHistoryOf(mac)) >= 0 then (t, First(t, IsHistoryOf(mac)))
      else if First(t, IsHistoryOf(0)) >= 0 then (t, First(t, IsHistoryOf(0)))
      else (t, First(t, IsOthersHistory()))
    case REQUEST =>
      if mine >= 0 then
        if unavailable then (GiveUp(t, mine, t[mine].state != Bind), -1)
        else if asked >= 0 then (GiveUp(t, mine, t[mine].state != Bind), if forMe then asked else -1)
        else (t, if forMe then mine else -1)
      else (t, if !unavailable && forMe then asked else -1)
    case RELEASE => (if mine >= 0 then GiveUp(t, mine, t[mine].state != Bind) else t, -1)
    case DECLINE => (if mine >= 0 then GiveUp(t, mine, t[mine].state != Bind) else t, -1)
    case OTHER => (t, -1)
  }

  function Lookup(t: Table, m: MsgType, mac: Mac, req: nat, sid: nat, server: nat): (r: (Table, int))
    ensures |r.0| == |t| && -1 <= r.1 < |t|
  {
    var (u, i) := Choose(t, m, mac, req, sid, server);
    if i >= 0 then (u[i := u[i].(mac := mac)], i) else (u, i)
  }

  // Idle entries forget the client.
  function Clean(t: Table, mac: Mac): (u: Table)
    ensures |u| == |t|
  {
    seq(|t|, k requires 0 <= k < |t| => if t[k].state == Idle && t[k].mac == mac then t[k].(mac := 0) else t[k])
  }

  // The client state machine.
  function Drive(t: Table, i: int, m: MsgType): (r: (Table, Reply))
    requires 0 <= i < |t|
    ensures |r.0| == |t|
  {
    var c := t[i];
    if c.state == Request || c.state == Bind || (c.state == Idle && m == REQUEST) then
      (Clean(t[i := c.(lease := LEASE_TIME, state := Bind)], c.mac), Ack(c.ip, c.mac))
    else
      (t[i := c.(timeout := TIMEOUT, state := Request)], Offer(c.ip, c.mac))
  }

  function Receive(t: Table, m: MsgType, mac: Mac, req: nat, sid: nat, server: nat): (r: (Table, Reply))
    ensures |r.0| == |t|
  {
    var (u, i) := Lookup(t, m, mac, req, sid, server);
    if i < 0 then (u, if m == RELEASE || m == DECLINE then NoReply else Nak(mac)) else Drive(u, i, m)
  }

  // What a tick does to one entry. present are the stations that are still in the network.
  function Aged(c: Client, present: set<Mac>): Client {
    if c.state == Request then
      var d := if c.timeout > 0 then c.(timeout := c.timeout - 1) else c;
      if c.timeout == 1 then d.(mac := 0, state := Idle) else d
    else if c.state == Bind then
      var d := if c.lease > 0 then c.(lease := c.lease - 1) else c;
      if c.lease == 1 || c.mac !in present then d.(state := Idle) else d
    else c
  }

  function Ticked(t: Table, present: set<Mac>): (u: Table)
    ensures |u| == |t|
  {
    seq(|t|, k requires 0 <= k < |t| => Aged(t[k], present))
  }

  function Deleted(t: Table, mac: Mac): (u: Table)
    ensures |u| == |t|
  {
    var i := First(t, IsHeldBy(mac));
    if i >= 0 && t[i].state == Bind then GiveUp(t, i, false) else t
  }

  // Everything that happens to the table.
  datatype Event = Message(m: MsgType, mac: Mac, req: nat, sid: nat) | Tick(present: set<Mac>) | Delete(mac: Mac)

  function Step(t: Table, e: Event, server: nat): (r: (Table, Reply))
    ensures |r.0| == |t|
  {
    match e
    case Message(m, mac, req, sid) => Receive(t, m, mac, req, sid, server)
    case Tick(present) => (Ticked(t, present), NoReply)
    case Delete(mac) => (Deleted(t, mac), NoReply)
  }

  // The invariant. ------------------------------------------------------------------------------

  // No two entries in use belong to the same client, and none is left in the passing state.
  ghost predicate Inv(t: Table) {
    && (forall i, j :: 0 <= i < j < |t| && t[i].state != Idle && t[j].state != Idle ==> t[i].mac != t[j].mac)
    && (forall i :: 0 <= i < |t| ==> t[i].state != Select)
  }

  ghost predicate SameAddresses(t: Table, u: Table) {
    |u| == |t| && forall i :: 0 <= i < |t| ==> u[i].ip == t[i].ip
  }

  ghost predicate DistinctAddresses(t: Table) {
    forall i, j :: 0 <= i < j < |t| ==> t[i].ip != t[j].ip
  }

  // Nobody but mac is negotiating for or bound to the address.
  ghost predicate HeldByNoOther(t: Table, ip: nat, mac: Mac) {
    forall i :: 0 <= i < |t| && t[i].state != Idle && t[i].ip == ip ==> t[i].mac == mac
  }

  ghost predicate NotHeld(t: Table, mac: Mac) {
    forall i :: 0 <= i < |t| && t[i].state != Idle ==> t[i].mac != mac
  }

  lemma GiveUpKeeps(t: Table, i: int, forget: bool)
    requires Inv(t) && 0 <= i < |t|
    ensures Inv(GiveUp(t, i, forget)) && SameAddresses(t, GiveUp(t, i, forget))
    ensures t[i].state != Idle ==> NotHeld(GiveUp(t, i, forget), t[i].mac)
  {
  }

  /**
   * The entry chosen for a client is idle and no other entry is its own, or it is the one the
   * client holds already.
   */
  lemma ChooseKeeps(t: Table, m: MsgType, mac: Mac, req: nat, sid: nat, server: nat)
    requires Inv(t)
    ensures var (u, i) := Choose(t, m, mac, req, sid, server);
      && Inv(u) && SameAddresses(t, u)
      && (i >= 0 ==> (u[i].state == Idle && NotHeld(u, mac)) || (u == t && u[i].state != Idle && u[i].mac == mac))
      && (i >= 0 ==> t[i].state == Idle || t[i].mac == mac)
  {
    var mine := Last(t, IsHeldBy(mac));
    if mine >= 0 {
      GiveUpKeeps(t, mine, true);
      GiveUpKeeps(t, mine, false);
    }
  }

  lemma CleanKeeps(t: Table, mac: Mac)
    requires Inv(t)
    ensures Inv(Clean(t, mac)) && SameAddresses(t, Clean(t, mac))
    ensures forall k :: 0 <= k < |t| ==> Clean(t, mac)[k].state == t[k].state
    ensures forall k :: 0 <= k < |t| && t[k].state != Idle ==> Clean(t, mac)[k] == t[k]
  {
  }

  /** Every message keeps the invariant and the addresses. */
  lemma ReceiveKeeps(t: Table, m: MsgType, mac: Mac, req: nat, sid: nat, server: nat)
    requires Inv(t)
    ensures var u := Receive(t, m, mac, req, sid, server).0; Inv(u) && SameAddresses(t, u)
  {
    ChooseKeeps(t, m, mac, req, sid, server);
    var (v, i) := Choose(t, m, mac, req, sid, server);
    if i >= 0 {
      var w := v[i := v[i].(mac := mac)];
      var x := w[i := w[i].(lease := LEASE_TIME, state := Bind)];
      assert Inv(x) && SameAddresses(t, x);
      CleanKeeps(x, mac);
    }
  }

  /** Every event keeps the invariant and the addresses. */
  lemma StepKeeps(t: Table, e: Event, server: nat)
    requires Inv(t)
    ensures Inv(Step(t, e, server).0) && SameAddresses(t, Step(t, e, server).0)
  {
    match e {
      case Message(m, mac, req, sid) =>
        ReceiveKeeps(t, m, mac, req, sid, server);
      case Tick(present) =>
      case Delete(mac) =>
        var i := First(t, IsHeldBy(mac));
        if i >= 0 {
          GiveUpKeeps(t, i, false);
        }
    }
  }

  /**
   * With distinct addresses, an offer or acknowledgement goes to the client it was asked by, for an
   * address that no other client holds; afterwards that client holds it.
   */
  lemma RepliesAreSafe(t: Table, e: Event, server: nat)
    requires Inv(t) && DistinctAddresses(t)
    ensures var (u, r) := Step(t, e, server);
      r.Offer? || r.Ack? ==>
        && e.Message? && r.to == e.mac && HeldByNoOther(t, r.addr, r.to) && HeldByNoOther(u, r.addr, r.to)
        && exists i :: 0 <= i < |u| && u[i].ip == r.addr && u[i].mac == r.to && u[i].state == if r.Ack? then Bind else Request
  {
    if e.Message? {
      ChooseKeeps(t, e.m, e.mac, e.req, e.sid, server);
      StepKeeps(t, e, server);
      var i := Choose(t, e.m, e.mac, e.req, e.sid, server).1;
      if i >= 0 {
        var (u, r) := Step(t, e, server);
        ChosenEntry(t, e.m, e.mac, e.req, e.sid, server);
        OnlyEntry(t, r.addr, e.mac, i);
        OnlyEntry(u, r.addr, e.mac, i);
      }
    }
  }

  // What a message that is answered does to the entry chosen.
  lemma ChosenEntry(t: Table, m: MsgType, mac: Mac, req: nat, sid: nat, server: nat)
    requires Inv(t) && Choose(t, m, mac, req, sid, server).1 >= 0
    ensures var i := Choose(t, m, mac, req, sid, server).1; var (u, r) := Receive(t, m, mac, req, sid, server);
      && (r.Offer? || r.Ack?) && r.to == mac && r.addr == t[i].ip == u[i].ip
      && u[i].mac == mac && u[i].state == (if r.Ack? then Bind else Request) && (r.Offer? ==> u[i].timeout == TIMEOUT)
  {
    ChooseKeeps(t, m, mac, req, sid, server);
    var (v, i) := Choose(t, m, mac, req, sid, server);
    var w := v[i := v[i].(mac := mac)];
    var x := w[i := w[i].(lease := LEASE_TIME, state := Bind)];
    assert Clean(x, mac)[i] == x[i];
  }

  lemma OnlyEntry(t: Table, ip: nat, mac: Mac, i: int)
    requires DistinctAddresses(t) && 0 <= i < |t| && t[i].ip == ip && (t[i].state == Idle || t[i].mac == mac)
    ensures HeldByNoOther(t, ip, mac)
  {
  }

  // Runs. --------------------------------------------------------------------------------------

  function After(t: Table, es: seq<Event>, server: nat): (u: Table)
    ensures |u| == |t|
  {
    if es == [] then t else Step(After(t, es[..|es| - 1], server), es[|es| - 1], server).0
  }

  lemma {:induction false} RunKeeps(t: Table, es: seq<Event>, server: nat)
    requires Inv(t)
    ensures Inv(After(t, es, server)) && SameAddresses(t, After(t, es, server))
  {
    if es != [] {
      RunKeeps(t, es[..|es| - 1], server);
      StepKeeps(After(t, es[..|es| - 1], server), es[|es| - 1], server);
    }
  }

  /**
   * Along every run from a table of distinct addresses, no two entries in use have the same MAC,
   * and no offer or acknowledgement ever names an address that another client holds.
   */
  lemma RunIsSafe(t: Table, es: seq<Event>, server: nat, k: nat)
    requires Inv(t) && DistinctAddresses(t) && k < |es|
    ensures var u := After(t, es[..k], server); var (w, r) := Step(u, es[k], server);
      && Inv(u) && After(t, es[..k + 1], server) == w
      && (r.Offer? || r.Ack? ==> r.to == es[k].mac && HeldByNoOther(u, r.addr, r.to) && HeldByNoOther(w, r.addr, r.to))
  {
    RunKeeps(t, es[..k], server);
    assert es[..k + 1][..k] == es[..k];
    RepliesAreSafe(After(t, es[..k], server), es[k], server);
  }

  // How many of the events are ticks.
  function Ticks(es: seq<Event>): (n: nat)
    ensures n <= |es|
  {
    if es == [] then 0 else Ticks(es[..|es| - 1]) + if es[|es| - 1].Tick? then 1 else 0
  }

  // The client itself says nothing.
  predicate Silent(e: Event, mac: Mac) {
    !e.Message? || e.mac != mac
  }

  /** Other clients' messages leave an entry in use alone, and so do deletions unless it is bound and its own. */
  lemma OthersLeaveAlone(t: Table, i: nat, e: Event, server: nat)
    requires i < |t| && t[i].state != Idle && Silent(e, t[i].mac) && !e.Tick?
    requires e.Delete? && t[i].state == Bind ==> e.mac != t[i].mac
    ensures Step(t, e, server).0[i] == t[i]
  {
    if e.Message? {
      OthersChoice(t, i, e.m, e.mac, e.req, e.sid, server);
    }
  }

  lemma OthersChoice(t: Table, i: nat, m: MsgType, mac: Mac, req: nat, sid: nat, server: nat)
    requires i < |t| && t[i].state != Idle && t[i].mac != mac
    ensures var (u, j) := Choose(t, m, mac, req, sid, server); j != i && u[i] == t[i]
  {
  }

  /**
   * An offer whose client is silent lapses with the tenth tick and not earlier, whatever other
   * clients send meanwhile, and whichever clients are deleted.
   */
  lemma {:induction false} OfferLapses(t: Table, i: nat, es: seq<Event>, server: nat)
    requires i < |t| && t[i].state == Request && t[i].timeout == TIMEOUT && Ticks(es) <= 10
    requires forall k :: 0 <= k < |es| ==> Silent(es[k], t[i].mac)
    ensures var c, n := After(t, es, server)[i], Ticks(es);
      && (n < 10 ==> c == t[i].(timeout := 10 - n))
      && (n == 10 && es[|es| - 1].Tick? ==> c == t[i].(timeout := 0, state := Idle, mac := 0))
  {
    if es != [] {
      var was, e := es[..|es| - 1], es[|es| - 1];
      OfferLapses(t, i, was, server);
      if Ticks(was) < 10 && !e.Tick? {
        OthersLeaveAlone(After(t, was, server), i, e, server);
      }
    }
  }

  // What clients get. --------------------------------------------------------------------------

  // The only entry of the client, which also is the only one with its address.
  lemma OnlyOwn(t: Table, i: nat)
    requires Inv(t) && DistinctAddresses(t) && i < |t| && t[i].state != Idle
    ensures Last(t, IsHeldBy(t[i].mac)) == i && First(t, IsIdleAt(t[i].ip)) == -1 && First(t, IsTaken(t[i].mac, t[i].ip)) == -1
  {
    var c := t[i];
    assert IsHeldBy(c.mac)(t[i]);
    forall k | 0 <= k < |t| && k != i ensures t[k].ip != c.ip {
      assert k < i || i < k;
    }
  }

  /**
   * A client that asks for the address it was offered, or is bound to, gets it, for the full lease;
   * its entry is the only one in use that changes.
   */
  lemma OwnAddressGranted(t: Table, i: nat, sid: nat, server: nat)
    requires Inv(t) && DistinctAddresses(t) && i < |t| && t[i].state != Idle && (sid == 0 || sid == server)
    ensures var c := t[i]; var (u, r) := Step(t, Message(REQUEST, c.mac, c.ip, sid), server);
      && r == Ack(c.ip, c.mac) && u[i] == c.(state := Bind, lease := LEASE_TIME)
      && forall k :: 0 <= k < |t| && k != i && t[k].state != Idle ==> u[k] == t[k]
  {
    var c := t[i];
    OnlyOwn(t, i);
    assert t[i := c.(mac := c.mac)] == t;
    assert Choose(t, REQUEST, c.mac, c.ip, sid, server) == (t, i);
  }

  /**
   * An offer is a promise: until the tenth tick, whatever other clients send and whoever is
   * deleted, the client that asks for the address it was offered gets it.
   */
  lemma OfferIsKept(t: Table, e: Event, es: seq<Event>, sid: nat, server: nat)
    requires Inv(t) && DistinctAddresses(t) && Step(t, e, server).1.Offer? && (sid == 0 || sid == server)
    requires var o := Step(t, e, server).1; Ticks(es) < 10 && forall k :: 0 <= k < |es| ==> Silent(es[k], o.to)
    ensures var (u, o) := Step(t, e, server); var w := After(u, es, server);
      var (x, r) := Step(w, Message(REQUEST, o.to, o.addr, sid), server);
      && r == Ack(o.addr, o.to)
      && exists i :: 0 <= i < |x| && x[i].ip == o.addr && x[i].mac == o.to && x[i].state == Bind && x[i].lease == LEASE_TIME
  {
    var i := OfferStands(t, e, server);
    StepKeeps(t, e, server);
    OfferGranted(Step(t, e, server).0, i, es, sid, server);
  }

  // The entry that is offered.
  lemma OfferStands(t: Table, e: Event, server: nat) returns (i: nat)
    requires Inv(t) && Step(t, e, server).1.Offer?
    ensures var (u, o) := Step(t, e, server);
      i < |u| && u[i].state == Request && u[i].timeout == TIMEOUT && u[i].mac == o.to && u[i].ip == o.addr
  {
    i := Choose(t, e.m, e.mac, e.req, e.sid, server).1;
    ChosenEntry(t, e.m, e.mac, e.req, e.sid, server);
  }

  lemma OfferGranted(u: Table, i: nat, es: seq<Event>, sid: nat, server: nat)
    requires Inv(u) && DistinctAddresses(u) && i < |u| && u[i].state == Request && u[i].timeout == TIMEOUT
    requires Ticks(es) < 10 && (sid == 0 || sid == server) && forall k :: 0 <= k < |es| ==> Silent(es[k], u[i].mac)
    ensures var (x, r) := Step(After(u, es, server), Message(REQUEST, u[i].mac, u[i].ip, sid), server);
      && r == Ack(u[i].ip, u[i].mac)
      && x[i].ip == u[i].ip && x[i].mac == u[i].mac && x[i].state == Bind && x[i].lease == LEASE_TIME
  {
    OfferLapses(u, i, es, server);
    RunKeeps(u, es, server);
    SameKeepsDistinct(u, After(u, es, server));
    OwnAddressGranted(After(u, es, server), i, sid, server);
  }

  lemma SameKeepsDistinct(t: Table, u: Table)
    requires SameAddresses(t, u) && DistinctAddresses(t)
    ensures DistinctAddresses(u)
  {
  }

  /** A client that lets go of its address holds none. */
  lemma ReleaseFrees(t: Table, m: MsgType, mac: Mac, req: nat, sid: nat, server: nat)
    requires Inv(t) && (m == RELEASE || m == DECLINE)
    ensures var (u, r) := Step(t, Message(m, mac, req, sid), server); NotHeld(u, mac) && r == NoReply
  {
    var i := Last(t, IsHeldBy(mac));
    if i >= 0 {
      GiveUpKeeps(t, i, t[i].state != Bind);
    } else {
      forall k | 0 <= k < |t| && t[k].state != Idle ensures t[k].mac != mac {
        assert !IsHeldBy(mac)(t[k]);
      }
    }
  }

  /** So does a bound client that is deleted; no other entry changes. */
  lemma DeletionFrees(t: Table, i: nat, server: nat)
    requires Inv(t) && i < |t| && t[i].state == Bind
    ensures Step(t, Delete(t[i].mac), server).0 == t[i := t[i].(state := Idle)]
    ensures NotHeld(Step(t, Delete(t[i].mac), server).0, t[i].mac)
  {
    var f := First(t, IsHeldBy(t[i].mac));
    assert IsHeldBy(t[i].mac)(t[i]);
    assert f == i;
    GiveUpKeeps(t, i, false);
  }

  // Nothing is left for a client that holds nothing.
  ghost predicate Exhausted(t: Table, mac: Mac) {
    forall i :: 0 <= i < |t| ==> t[i].state != Idle && t[i].mac != mac
  }

  /** A discovery is answered by an offer, unless all addresses are in use by others. */
  lemma DiscoverOffered(t: Table, mac: Mac, req: nat, sid: nat, server: nat)
    requires Inv(t)
    ensures var (u, r) := Step(t, Message(DISCOVER, mac, req, sid), server);
      if Exhausted(t, mac) then r == Nak(mac) && u == t
      else r.Offer? && r.to == mac
           && exists i :: 0 <= i < |u| && u[i].ip == r.addr && u[i].mac == mac && u[i].state == Request && u[i].timeout == TIMEOUT
  {
    var (v, i) := Choose(t, DISCOVER, mac, req, sid, server);
    ChooseKeeps(t, DISCOVER, mac, req, sid, server);
    if i >= 0 {
      ChosenEntry(t, DISCOVER, mac, req, sid, server);
      DiscoveryChoosesIdle(t, mac, req, sid, server);
      var u := Step(t, Message(DISCOVER, mac, req, sid), server).0;
      assert u[i].state == Request;
      assert !Exhausted(t, mac);
    } else {
      NothingChosen(t, mac, req, sid, server);
    }
  }

  lemma DiscoveryChoosesIdle(t: Table, mac: Mac, req: nat, sid: nat, server: nat)
    requires Inv(t) && Choose(t, DISCOVER, mac, req, sid, server).1 >= 0
    ensures var (v, i) := Choose(t, DISCOVER, mac, req, sid, server); v[i].state == Idle
  {
  }

  lemma NothingChosen(t: Table, mac: Mac, req: nat, sid: nat, server: nat)
    requires Choose(t, DISCOVER, mac, req, sid, server).1 < 0
    ensures Exhausted(t, mac) && Choose(t, DISCOVER, mac, req, sid, server).0 == t
  {
    forall k | 0 <= k < |t| ensures t[k].state != Idle && t[k].mac != mac {
      assert !IsHeldBy(mac)(t[k]);
      assert !IsHistoryOf(0)(t[k]) && !IsOthersHistory()(t[k]);
    }
  }

  /**
   * Which address a discovery is offered: the one it asks for, if that is idle; else the one the
   * client holds, or held when it was here last; else one that nobody ever had; else any idle one.
   */
  lemma DiscoverPrefers(t: Table, mac: Mac, req: nat, sid: nat, server: nat)
    requires Inv(t) && !Exhausted(t, mac)
    ensures var a := Step(t, Message(DISCOVER, mac, req, sid), server).1.addr;
      && (HasIdle(t, req) ==> a == req)
      && (!HasIdle(t, req) && !NotHeld(t, mac) ==> Had(t, a, mac, false))
      && (!HasIdle(t, req) && NotHeld(t, mac) && Remembers(t, mac) ==> Had(t, a, mac, true))
      && (!HasIdle(t, req) && NotHeld(t, mac) && !Remembers(t, mac) && Remembers(t, 0) ==> Had(t, a, 0, true))
  {
    DiscoverOffered(t, mac, req, sid, server);
    ChosenEntry(t, DISCOVER, mac, req, sid, server);
    var mine, asked, old_, free := Last(t, IsHeldBy(mac)), First(t, IsIdleAt(req)), First(t, IsHistoryOf(mac)), First(t, IsHistoryOf(0));
    forall k | 0 <= k < |t|
      ensures (asked < 0 ==> !(t[k].state == Idle && t[k].ip == req)) && (mine < 0 ==> !(t[k].state != Idle && t[k].mac == mac))
      ensures (old_ < 0 ==> !(t[k].state == Idle && t[k].mac == mac)) && (free < 0 ==> !(t[k].state == Idle && t[k].mac == 0))
    {
      assert asked < 0 ==> !IsIdleAt(req)(t[k]);
      assert mine < 0 ==> !IsHeldBy(mac)(t[k]);
      assert old_ < 0 ==> !IsHistoryOf(mac)(t[k]);
      assert free < 0 ==> !IsHistoryOf(0)(t[k]);
    }
  }

  ghost predicate HasIdle(t: Table, ip: nat) {
    exists i :: 0 <= i < |t| && t[i].state == Idle && t[i].ip == ip
  }

  ghost predicate Remembers(t: Table, mac: Mac) {
    exists i :: 0 <= i < |t| && t[i].state == Idle && t[i].mac == mac
  }

  // An entry of the client, idle or in use, has the address.
  ghost predicate Had(t: Table, ip: nat, mac: Mac, idle: bool) {
    exists i :: 0 <= i < |t| && t[i].ip == ip && t[i].mac == mac && (t[i].state == Idle) == idle
  }

  // Somebody else has the address.
  ghost predicate TakenByOther(t: Table, ip: nat, mac: Mac) {
    exists i :: 0 <= i < |t| && t[i].state != Idle && t[i].ip == ip && t[i].mac != mac
  }

  /**
   * A request is acknowledged if and only if it is meant for this server, nobody else has the
   * address, and the client holds an entry or the address is idle. It gets the address it asks for
   * if that is idle, and else the one it holds.
   */
  lemma RequestGrantedIff(t: Table, mac: Mac, req: nat, sid: nat, server: nat)
    requires Inv(t)
    ensures var r := Step(t, Message(REQUEST, mac, req, sid), server).1;
      && (r.Ack? <==> (sid == 0 || sid == server) && !TakenByOther(t, req, mac) && (!NotHeld(t, mac) || HasIdle(t, req)))
      && (!r.Ack? ==> r == Nak(mac))
      && (r.Ack? ==> r.to == mac && if HasIdle(t, req) then r.addr == req else Had(t, r.addr, mac, false))
  {
    RequestScans(t, mac, req);
    RequestAnswer(t, mac, req, sid, server);
  }

  // What the scan of the table finds, entry by entry.
  lemma RequestScans(t: Table, mac: Mac, req: nat)
    ensures Last(t, IsHeldBy(mac)) >= 0 <==> !NotHeld(t, mac)
    ensures First(t, IsIdleAt(req)) >= 0 <==> HasIdle(t, req)
    ensures First(t, IsTaken(mac, req)) >= 0 <==> TakenByOther(t, req, mac)
  {
    forall k | 0 <= k < |t|
      ensures Last(t, IsHeldBy(mac)) < 0 ==> !(t[k].state != Idle && t[k].mac == mac)
      ensures First(t, IsIdleAt(req)) < 0 ==> !(t[k].state == Idle && t[k].ip == req)
      ensures First(t, IsTaken(mac, req)) < 0 ==> !(t[k].state != Idle && t[k].mac != mac && t[k].ip == req)
    {
      assert Last(t, IsHeldBy(mac)) < 0 ==> !IsHeldBy(mac)(t[k]);
      assert First(t, IsIdleAt(req)) < 0 ==> !IsIdleAt(req)(t[k]);
      assert First(t, IsTaken(mac, req)) < 0 ==> !IsTaken(mac, req)(t[k]);
    }
  }

  lemma RequestAnswer(t: Table, mac: Mac, req: nat, sid: nat, server: nat)
    requires Inv(t)
    ensures var mine, asked := Last(t, IsHeldBy(mac)), First(t, IsIdleAt(req));
      var r := Step(t, Message(REQUEST, mac, req, sid), server).1;
      var granted := (sid == 0 || sid == server) && First(t, IsTaken(mac, req)) < 0 && (mine >= 0 || asked >= 0);
      r == if granted then Ack(if asked >= 0 then t[asked].ip else t[mine].ip, mac) else Nak(mac)
  {
  }

  /**
   * A bound client that is silent, present at every tick and not deleted keeps its address to the
   * end of its lease, and no longer.
   */
  lemma {:induction false} LeaseLasts(t: Table, i: nat, es: seq<Event>, server: nat)
    requires i < |t| && t[i].state == Bind && Ticks(es) <= t[i].lease
    requires forall k :: 0 <= k < |es| ==> Silent(es[k], t[i].mac) && Leaves(es[k], t[i].mac)
    ensures var c, n := After(t, es, server)[i], Ticks(es);
      && (n < t[i].lease ==> c == t[i].(lease := t[i].lease - n))
      && (n == t[i].lease && es != [] && es[|es| - 1].Tick? ==> c == t[i].(lease := 0, state := Idle))
  {
    if es != [] {
      var was, e := es[..|es| - 1], es[|es| - 1];
      LeaseLasts(t, i, was, server);
      if Ticks(was) < t[i].lease && !e.Tick? {
        OthersLeaveAlone(After(t, was, server), i, e, server);
      }
    }
  }

  // The client is not deleted, and there at a tick.
  predicate Leaves(e: Event, mac: Mac) {
    (e.Delete? ==> e.mac != mac) && (e.Tick? ==> mac in e.present)
  }

  /** A bound client that is not there at a tick loses its entry, which remembers it. */
  lemma AbsentFreed(t: Table, i: nat, present: set<Mac>, server: nat)
    requires i < |t| && t[i].state == Bind && t[i].mac !in present
    ensures var c := Step(t, Tick(present), server).0[i]; c.state == Idle && c.mac == t[i].mac && c.ip == t[i].ip
  {
  }

  // The address pool. --------------------------------------------------------------------------

  // The pool starts behind the server's own host number; m is the host part of the mask.
  function HostStart(own: nat, m: nat): (s: nat)
    requires 0 < m
    ensures 0 < s && (s < m || s == 1)
  {
    if (own + 1) % m != 0 then (own + 1) % m else 1
  }

  function Host(s: nat, i: nat, m: nat): nat
    requires 0 < m
  {
    if (s + i) % m != 0 then (s + i) % m else 1
  }

  function Pool(net: nat, own: nat, m: nat): (t: Table)
    requires 0 < m
    ensures |t| == CLIENTS
  {
    seq(CLIENTS, i requires 0 <= i < CLIENTS => Client(Idle, 0, net + Host(HostStart(own, m), i, m), 0, LEASE_TIME))
  }

  /** The pool hands out the host numbers behind the server's own one; all of them are free. */
  lemma PoolFollows(net: nat, own: nat, m: nat, i: nat)
    requires i < 8 && own + 1 + i < m
    ensures Pool(net, own, m)[i] == Client(Idle, 0, net + own + 1 + i, 0, LEASE_TIME)
  {
    NotWrapped(0, own + 1, m);
    NotWrapped(own + 1, i, m);
  }

  lemma NotWrapped(s: nat, i: nat, m: nat)
    requires 0 < s + i <= m
    ensures Host(s, i, m) == if s + i < m then s + i else 1
  {
  }

  lemma Wrapped(s: nat, m: nat)
    requires 0 < s && (s < m || s == 1) && m < s + 7 && 0 < m
    ensures exists i, j :: 0 <= i < j < 8 && Host(s, i, m) == Host(s, j, m)
  {
    var i := if m == 1 then 0 else m - s;
    assert (s + i) % m == 0 && Host(s, i, m) == 1;
    assert (s + i + 1) % m == if m == 1 then 0 else 1;
    assert Host(s, i + 1, m) == 1;
  }

  /** The pool repeats no address exactly when it ends before the last host number, or on it without having begun at 1. */
  lemma PoolDistinctIff(net: nat, own: nat, m: nat)
    requires 0 < m
    ensures Inv(Pool(net, own, m))
    ensures var s := HostStart(own, m);
      DistinctAddresses(Pool(net, own, m)) <==> s + 7 < m || (s + 7 == m && s != 1)
  {
    var s, t := HostStart(own, m), Pool(net, own, m);
    if m < s + 7 {
      Wrapped(s, m);
      var i, j :| 0 <= i < j < 8 && Host(s, i, m) == Host(s, j, m);
      assert t[i].ip == t[j].ip;
    } else {
      forall i | 0 <= i < 8 ensures t[i].ip == net + if s + i < m then s + i else 1 {
        NotWrapped(s, i, m);
      }
      if s == 1 && m == 8 {
        assert t[0].ip == t[7].ip;
      }
    }
  }

  // The server. --------------------------------------------------------------------------------

  datatype Status = Success | NotBind | NotFound | Inactive

  class Server {
    const clients: array<Client>
    const ip: nat
    var enable: bool

    ghost predicate Valid() {
      clients.Length == CLIENTS
    }

    // DHCPS_Start, for network number net, own host number and the host part m of the mask.
    constructor (net: nat, own: nat, m: nat)
      requires 0 < m
      ensures Valid() && fresh(clients) && enable && ip == net + own && clients[..] == Pool(net, own, m)
    {
      ip, enable := net + own, false;
      clients := new Client[CLIENTS](i => Client(Idle, 0, 0, 0, 0));
      new;
      var start := HostStart(own, m);
      var i := 0;
      while i < CLIENTS
        invariant i <= CLIENTS && clients[..i] == Pool(net, own, m)[..i]
      {
        clients[i] := Client(Idle, 0, net + Host(start, i, m), 0, LEASE_TIME);
        i := i + 1;
      }
      enable := true;
    }

    // _CleanClientHistory.
    method CleanClientHistory(mac: Mac)
      requires Valid()
      modifies clients
      ensures clients[..] == Clean(old(clients[..]), mac)
    {
      var i := 0;
      while i < CLIENTS
        invariant i <= CLIENTS
        invariant forall k :: 0 <= k < CLIENTS ==>
          clients[k] == if k < i then Clean(old(clients[..]), mac)[k] else old(clients[..])[k]
      {
        if clients[i].state == Idle && clients[i].mac == mac {
          clients[i] := clients[i].(mac := 0);
        }
        i := i + 1;
      }
    }

    // The scan of _ClientTableLookup.
    method Scan(mac: Mac, req: nat)
      returns (mine: int, asked: int, myHistory: int, free: int, history: int, unavailable: bool)
      requires Valid()
      ensures mine == Last(clients[..], IsHeldBy(mac)) && asked == First(clients[..], IsIdleAt(req))
      ensures myHistory == First(clients[..], IsHistoryOf(mac)) && free == First(clients[..], IsHistoryOf(0))
      ensures history == First(clients[..], IsOthersHistory())
      ensures unavailable == (First(clients[..], IsTaken(mac, req)) >= 0)
    {
      mine, asked, myHistory, free, history, unavailable := -1, -1, -1, -1, -1, false;
      var i := 0;
      while i < CLIENTS
        invariant i <= CLIENTS
        invariant mine == Last(clients[..i], IsHeldBy(mac)) && asked == First(clients[..i], IsIdleAt(req))
        invariant myHistory == First(clients[..i], IsHistoryOf(mac)) && free == First(clients[..i], IsHistoryOf(0))
        invariant history == First(clients[..i], IsOthersHistory())
        invariant unavailable == (First(clients[..i], IsTaken(mac, req)) >= 0)
      {
        assert clients[..i + 1][..i] == clients[..i];
        var c := clients[i];
        if c.state == Idle {
          if myHistory == -1 && c.mac == mac {
            myHistory := i;
          }
          if asked == -1 && c.ip == req {
            asked := i;
          }
          if free == -1 && c.mac == 0 {
            free := i;
          }
          if history == -1 && c.mac != 0 {
            history := i;
          }
        } else if c.mac == mac {
          mine := i;
        } else if c.ip == req {
          unavailable := true;
        }
        i := i + 1;
      }
      assert clients[..CLIENTS] == clients[..];
    }

    // Give entry i up. A client that was only negotiating is forgotten.
    method Release(i: int)
      requires Valid() && 0 <= i < CLIENTS
      modifies clients
      ensures clients[..] == GiveUp(old(clients[..]), i, old(clients[i]).state != Bind)
    {
      if clients[i].state != Bind {
        clients[i] := clients[i].(mac := 0);
      }
      clients[i] := clients[i].(state := Idle);
    }

    // _ClientTableLookup.
    method ClientTableLookup(mac: Mac, m: MsgType, req: nat, sid: nat) returns (r: int)
      requires Valid()
      modifies clients
      ensures (clients[..], r) == Lookup(old(clients[..]), m, mac, req, sid, ip)
    {
      r := ChooseEntry(mac, m, req, sid);
      if r >= 0 {
        ghost var u := clients[..];
        clients[r] := clients[r].(mac := mac);
        assert clients[..] == u[r := u[r].(mac := mac)];
      }
    }

    // The same, up to the line that fills in the MAC.
    method ChooseEntry(mac: Mac, m: MsgType, req: nat, sid: nat) returns (r: int)
      requires Valid()
      modifies clients
      ensures (clients[..], r) == Choose(old(clients[..]), m, mac, req, sid, ip)
    {
      var mine, asked, myHistory, free, history, unavailable := Scan(mac, req);
      r := -1;
      match m {
        case DISCOVER =>
          r := LookupForDiscover(mine, asked, myHistory, free, history);
        case REQUEST =>
          r := LookupForRequest(mine, asked, unavailable, sid == 0 || ip == sid);
        case RELEASE =>
          if mine >= 0 {
            Release(mine);
          }
        case DECLINE =>
          if mine >= 0 {
            Release(mine);
          }
        case OTHER =>
      }
    }

    // The case of a discovery in _ClientTableLookup: the old entry is given up for the address asked for.
    method LookupForDiscover(mine: int, asked: int, myHistory: int, free: int, history: int) returns (r: int)
      requires Valid() && -1 <= mine < CLIENTS && -1 <= asked < CLIENTS
      modifies clients
      ensures clients[..] == if mine >= 0 then GiveUp(old(clients[..]), mine, asked >= 0) else old(clients[..])
      ensures r == if asked >= 0 then asked else if mine >= 0 then mine
                   else if myHistory >= 0 then myHistory else if free >= 0 then free else history
    {
      r := -1;
      if mine >= 0 {
        clients[mine] := clients[mine].(state := Idle);
        if asked >= 0 {
          if clients[mine].state != Bind {
            clients[mine] := clients[mine].(mac := 0);
          }
          r := asked;
        } else {
          r := mine;
        }
      } else if asked >= 0 {
        r := asked;
      } else if myHistory >= 0 {
        r := myHistory;
      } else if free >= 0 {
        r := free;
      } else {
        r := history;
      }
    }

    // The case of a request in _ClientTableLookup.
    method LookupForRequest(mine: int, asked: int, unavailable: bool, forMe: bool) returns (r: int)
      requires Valid() && -1 <= mine < CLIENTS && -1 <= asked < CLIENTS
      modifies clients
      ensures clients[..] == if mine >= 0 && (unavailable || asked >= 0)
                             then GiveUp(old(clients[..]), mine, old(clients[mine]).state != Bind) else old(clients[..])
      ensures r == if mine >= 0 then (if unavailable then -1 else if !forMe then -1 else if asked >= 0 then asked else mine)
                   else if !unavailable && forMe then asked else -1
    {
      r := -1;
      if mine >= 0 {
        if unavailable {
          Release(mine);
        } else if asked >= 0 {
          Release(mine);
          if forMe {
            r := asked;
          }
        } else if forMe {
          r := mine;
        }
      } else if !unavailable && forMe {
        r := asked;
      }
    }

    // _DhcpClientSMEHandle.
    method ClientSmeHandle(i: int, m: MsgType) returns (r: Reply)
      requires Valid() && 0 <= i < CLIENTS
      modifies clients
      ensures (clients[..], r) == Drive(old(clients[..]), i, m)
    {
      var c := clients[i];
      ghost var t := clients[..];
      if c.state == Request || c.state == Bind || (c.state == Idle && m == REQUEST) {
        r := Ack(c.ip, c.mac);
        clients[i] := c.(lease := LEASE_TIME, state := Bind);
        assert clients[..] == t[i := c.(lease := LEASE_TIME, state := Bind)];
        CleanClientHistory(c.mac);
      } else {
        if c.state == Idle && m == DISCOVER {
          clients[i] := clients[i].(state := Select);
        }
        r := Offer(c.ip, c.mac);
        clients[i] := clients[i].(timeout := TIMEOUT, state := Request);
        assert clients[..] == t[i := c.(timeout := TIMEOUT, state := Request)];
      }
    }

    // DHCPS_RecvCb, from the parsed message on.
    method RecvCb(m: MsgType, mac: Mac, req: nat, sid: nat) returns (r: Reply)
      requires Valid()
      modifies clients
      ensures (clients[..], r) == Step(old(clients[..]), Message(m, mac, req, sid), ip)
    {
      var i := ClientTableLookup(mac, m, req, sid);
      if i < 0 {
        r := if m != RELEASE && m != DECLINE then Nak(mac) else NoReply;
      } else {
        r := ClientSmeHandle(i, m);
      }
    }

    // _DhcpTickHandle. present are the stations the access point still knows.
    method TickHandle(present: set<Mac>)
      requires Valid()
      modifies clients
      ensures clients[..] == if enable then Step(old(clients[..]), Tick(present), ip).0 else old(clients[..])
    {
      if !enable {
        return;
      }
      var i := 0;
      while i < CLIENTS
        invariant i <= CLIENTS
        invariant forall k :: 0 <= k < CLIENTS ==>
          clients[k] == if k < i then Ticked(old(clients[..]), present)[k] else old(clients[..])[k]
      {
        var c := clients[i];
        if c.state == Request {
          if c.timeout > 0 {
            clients[i] := c.(timeout := c.timeout - 1);
            if clients[i].timeout == 0 {
              clients[i] := clients[i].(mac := 0, state := Idle);
            }
          }
        } else if c.state == Bind {
          var lapsed := false;
          if c.lease > 0 {
            clients[i] := c.(lease := c.lease - 1);
            lapsed := clients[i].lease == 0;
          }
          if lapsed {
            clients[i] := clients[i].(state := Idle);
          } else if c.mac !in present {
            clients[i] := clients[i].(state := Idle);
          }
        }
        i := i + 1;
      }
    }

    // DHCPS_ClientDelete.
    method ClientDelete(mac: Mac) returns (r: Status)
      requires Valid()
      modifies clients
      ensures clients[..] == if enable then Step(old(clients[..]), Delete(mac), ip).0 else old(clients[..])
      ensures r == if !enable then Inactive else
                   var i := First(old(clients[..]), IsHeldBy(mac));
                   if i < 0 then NotFound else if old(clients[..])[i].state == Bind then Success else NotBind
    {
      if !enable {
        return Inactive;
      }
      ghost var t := clients[..];
      var i := 0;
      while i < CLIENTS
        invariant i <= CLIENTS && clients[..] == t && First(t[..i], IsHeldBy(mac)) == -1
      {
        assert t[..i + 1][..i] == t[..i];
        if clients[i].state != Idle && clients[i].mac == mac {
          FirstStays(t, IsHeldBy(mac), i);
          if clients[i].state != Bind {
            return NotBind;
          } else {
            clients[i] := clients[i].(state := Idle);
            return Success;
          }
        }
        i := i + 1;
      }
      assert t[..CLIENTS] == t;
      r := NotFound;
    }
  }

  // The first entry with the property is the first also of the whole table.
  lemma {:induction false} FirstStays(t: Table, p: Client -> bool, i: int)
    requires 0 <= i < |t| && First(t[..i], p) == -1 && p(t[i])
    ensures First(t, p) == i
  {
    if i == |t| - 1 {
    } else {
      var u := t[..|t| - 1];
      assert u[..i] == t[..i];
      FirstStays(u, p, i);
    }
  }
}
