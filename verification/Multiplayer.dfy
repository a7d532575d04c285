/** The multiplayer session: snapshot pacing, held peers, admission and reconnection backoff. */
module Multiplayer {
  import opened Words

  const SEND_PERIOD: nat := 50
  const PEER_TIMEOUT: nat := 3000
  const MAXIMUM_PEERS: nat := 8
  const INITIAL_DELAY: nat := 1000
  const MAXIMUM_DELAY: nat := 30_000

  datatype Peer = Peer(x: int, y: int, sprite: uint16, flags: uint16, input: nat, frame: uint32, lastSeenMs: uint32)
  datatype ErrorCode = RoomFull | RateLimited | DeviceBlocked | OtherError

  /** A server message; a snapshot with a missing or out-of-range field has no payload. */
  datatype Message =
    | Error(code: ErrorCode)
    | Welcome(id: int)
    | Leaving(id: int)
    | Snapshot(id: int, payload: Option<Peer>)
    | Unknown(id: int)

  predicate ValidId(id: int) {
    1 <= id < TWO32
  }

  predicate Welcomes(message: Message) {
    message.Welcome? && ValidId(message.id)
  }

  // Pacing.

  /** The send slot after a tick, and whether the tick sends. */
  function Pace(lastSend: uint32, now: uint32): (uint32, bool) {
    var elapsed := U32(now - lastSend);
    if elapsed < SEND_PERIOD then (lastSend, false)
    else (if elapsed < 2 * SEND_PERIOD then U32(lastSend + SEND_PERIOD) else now, true)
  }

  /** After any tick the wrapped lag behind the send slot is under one period. */
  lemma LagUnderPeriod(lastSend: uint32, now: uint32)
    ensures U32(now - Pace(lastSend, now).0) < SEND_PERIOD
  {
  }

  /** How many snapshots a run of ticks sends. Times count milliseconds without wrapping; the clock wraps. */
  function Sends(lastSend: uint32, times: seq<nat>): nat
    decreases |times|
  {
    if times == [] then 0
    else
      var (slot, sent) := Pace(lastSend, U32(times[0]));
      (if sent then 1 else 0) + Sends(slot, times[1..])
  }

  /** Ticks in order, none more than one period after the one before. */
  predicate Prompt(start: nat, times: seq<nat>)
    decreases |times|
  {
    times == [] || (start <= times[0] <= start + SEND_PERIOD && Prompt(times[0], times[1..]))
  }

  /** One prompt tick, in unwrapped time: it sends exactly when a full period has passed since the slot. */
  lemma PromptTick(slot: nat, start: nat, now: nat)
    requires slot <= start < slot + SEND_PERIOD && start <= now <= start + SEND_PERIOD
    ensures var due := now - slot >= SEND_PERIOD;
      Pace(U32(slot), U32(now)) == (U32(if due then slot + SEND_PERIOD else slot), due)
  {
    WrappedDifference(slot, now);
    if now - slot >= SEND_PERIOD { WrappedSum(slot, SEND_PERIOD); }
  }

  lemma WrappedDifference(a: nat, b: nat)
    requires a <= b < a + TWO32
    ensures U32(U32(b) - U32(a)) == b - a
  {
  }

  lemma WrappedSum(a: nat, b: nat)
    ensures U32(U32(a) + b) == U32(a + b)
  {
  }

  /**
   * From a slot less than a period ago, prompt ticks send exactly one snapshot per full period since that slot,
   * whatever the wrap-around of the 32-bit clock.
   */
  lemma {:induction false} NoDrift(slot: nat, start: nat, times: seq<nat>)
    requires slot <= start < slot + SEND_PERIOD && Prompt(start, times)
    ensures Sends(U32(slot), times) == ((if times == [] then start else times[|times| - 1]) - slot) / SEND_PERIOD
    decreases |times|
  {
    hide Pace;
    if times == [] {
    } else {
      var now := times[0];
      PromptTick(slot, start, now);
      var next := if now - slot >= SEND_PERIOD then slot + SEND_PERIOD else slot;
      NoDrift(next, now, times[1..]);
    }
  }

  /** Circular order of 32-bit frame numbers: `b` is not older than `a`. */
  predicate NotOlder(a: uint32, b: uint32) {
    Signed(U32(b - a)) >= 0
  }

  /** The peer has been heard from recently enough. */
  predicate Heard(p: Peer, clockMs: uint32) {
    U32(clockMs - p.lastSeenMs) <= PEER_TIMEOUT
  }

  /** A frame number is not older exactly when less than half the circle leads to it from the one held. */
  lemma NotOlderIsAhead(a: uint32, b: uint32)
    ensures NotOlder(a, b) <==> exists d: nat :: Leads(a, d, b)
  {
    if NotOlder(a, b) { assert Leads(a, U32(b - a), b); }
  }

  predicate Leads(a: uint32, d: nat, b: uint32) {
    d < 0x8000_0000 && b == U32(a + d)
  }

  /** A sender whose frames go up by less than half the circle is never taken for an old one, across the wrap. */
  lemma FramesInOrder(first: nat, later: nat)
    requires first <= later < first + 0x8000_0000
    ensures NotOlder(U32(first), U32(later)) && (first < later ==> !NotOlder(U32(later), U32(first)))
  {
    WrappedDifference(first, later);
  }

  /** In time that does not wrap: a peer counts as heard from for three seconds, to the millisecond. */
  lemma HeardForThreeSeconds(p: Peer, seen: nat, now: nat)
    requires seen <= now < seen + TWO32 && p.lastSeenMs == U32(seen)
    ensures Heard(p, U32(now)) <==> now - seen <= 3000
  {
    WrappedDifference(seen, now);
  }

  class MultiplayerService {
    var memberRequested: bool
    var policyStopped: bool
    var admittedId: uint32
    var preferredId: uint32
    var lastSendMs: uint32
    var reconnectDelayMs: nat
    var joinRetry: bool
    var reconnectMs: Option<nat>
    var peers: map<uint32, Peer>
    var sent: nat
    /** A welcome has arrived since the last leave or disconnection. */
    ghost var welcomed: bool

    ghost predicate Valid()
      reads this
    {
      && INITIAL_DELAY <= reconnectDelayMs <= MAXIMUM_DELAY
      && |peers| <= MAXIMUM_PEERS
      && (admittedId != 0 ==> welcomed)
      && (reconnectMs.Some? ==> INITIAL_DELAY <= reconnectMs.value <= MAXIMUM_DELAY * 3 / 2)
    }

    constructor ()
      ensures Valid() && admittedId == 0 && peers == map[] && !memberRequested && !welcomed
    {
      memberRequested, policyStopped, admittedId, preferredId, lastSendMs := false, false, 0, 1, 0;
      reconnectDelayMs, joinRetry, reconnectMs, peers, sent, welcomed := INITIAL_DELAY, false, None, map[], 0, false;
    }

    /** `usable`: a server is known and the signature is well formed. */
    method Join(usable: bool) returns (code: int)
      requires Valid()
      modifies this
      ensures Valid() && code == if usable then 0 else -1
      ensures code == 0 ==> memberRequested && !policyStopped && peers == map[] && reconnectDelayMs == INITIAL_DELAY
      ensures code == 0 && old(memberRequested) ==> admittedId == 0 && !welcomed
      ensures code != 0 ==> unchanged(this)
    {
      if !usable { return -1; }
      if memberRequested { Leave(); }
      memberRequested, policyStopped, reconnectDelayMs, peers := true, false, INITIAL_DELAY, map[];
      return 0;
    }

    method Leave()
      requires Valid()
      modifies this
      ensures Valid() && !memberRequested && admittedId == 0 && !welcomed && peers == map[]
      ensures !joinRetry && reconnectMs == None && reconnectDelayMs == old(reconnectDelayMs)
      ensures preferredId == old(preferredId) && lastSendMs == old(lastSendMs) && sent == old(sent)
    {
      memberRequested, reconnectMs, joinRetry, admittedId, peers := false, None, false, 0, map[];
      welcomed := false;
    }

    /** Forget peers that have been silent for too long on the real-time clock. */
    method Prune(clockMs: uint32)
      requires Valid()
      modifies this`peers
      ensures Valid()
      ensures peers == map id | id in old(peers) && Heard(old(peers)[id], clockMs) :: old(peers)[id]
    {
      hide Heard;
      var kept, rest := peers, peers.Keys;
      while rest != {}
        invariant Valid() && peers == old(peers) && rest <= kept.Keys <= peers.Keys && |kept| <= |peers|
        invariant forall id | id in peers :: id in kept <==> id in rest || Heard(peers[id], clockMs)
        invariant forall id | id in kept :: kept[id] == peers[id]
        decreases |rest|
      {
        var id :| id in rest;
        if !Heard(kept[id], clockMs) {
          FewerKeys(kept, id);
          kept := kept - {id};
        }
        rest := rest - {id};
      }
      assert kept == map id | id in peers && Heard(peers[id], clockMs) :: peers[id];
      peers := kept;
    }

    /** Send the latest snapshot when a period has passed since the time the last one was due. */
    method Tick(nowMs: uint32, clockMs: uint32)
      requires Valid()
      modifies this`peers, this`lastSendMs, this`sent
      ensures Valid()
      ensures (lastSendMs, sent > old(sent)) ==
        if admittedId == 0 then (old(lastSendMs), false) else Pace(old(lastSendMs), nowMs)
      ensures sent == old(sent) || sent == old(sent) + 1
      ensures admittedId != 0 ==> U32(nowMs - lastSendMs) < SEND_PERIOD
      ensures peers == map id | id in old(peers) && Heard(old(peers)[id], clockMs) :: old(peers)[id]
    {
      Prune(clockMs);
      if admittedId == 0 { return; }
      LagUnderPeriod(lastSendMs, nowMs);
      var elapsed := U32(nowMs - lastSendMs);
      if elapsed < SEND_PERIOD { return; }
      lastSendMs := if elapsed < 2 * SEND_PERIOD then U32(lastSendMs + SEND_PERIOD) else nowMs;
      sent := sent + 1;
    }

    method HandleError(code: ErrorCode)
      requires Valid()
      modifies this`joinRetry, this`reconnectDelayMs, this`policyStopped
      ensures Valid()
      ensures joinRetry == (old(joinRetry) || code.RoomFull?) && policyStopped == (old(policyStopped) || code.DeviceBlocked?)
      ensures reconnectDelayMs == if code.RateLimited? then MAXIMUM_DELAY else old(reconnectDelayMs)
    {
      if code.RoomFull? {
        if !joinRetry { joinRetry := true; }
      } else if code.RateLimited? {
        reconnectDelayMs := MAXIMUM_DELAY;
      } else if code.DeviceBlocked? {
        policyStopped := true;
      }
    }

    /** The snapshot part of message handling: `id` is another player's. */
    method HoldSnapshot(id: uint32, payload: Option<Peer>, clockMs: uint32)
      requires Valid() && id != admittedId && ValidId(id)
      modifies this`peers
      ensures Valid() && peers == PeersAfter(old(peers), admittedId, Snapshot(id, payload), clockMs)
    {
      hide NotOlder;
      if payload.None? { return; }
      if id in peers && !NotOlder(peers[id].frame, payload.value.frame) { return; }
      if id !in peers && |peers| >= MAXIMUM_PEERS { return; }
      var peer := payload.value.(lastSeenMs := clockMs);
      OneMoreKey(peers, id, peer);
      peers := peers[id := peer];
    }

    method HandleMessage(message: Message, clockMs: uint32)
      requires Valid()
      modifies this
      ensures Valid() && memberRequested == old(memberRequested) && lastSendMs == old(lastSendMs) && sent == old(sent)
      ensures admittedId == if Welcomes(message) then message.id else old(admittedId)
      ensures peers == PeersAfter(old(peers), old(admittedId), message, clockMs)
      ensures reconnectMs == old(reconnectMs)
      ensures policyStopped == (old(policyStopped) || (message.Error? && message.code.DeviceBlocked?))
      ensures joinRetry == if Welcomes(message) then false else old(joinRetry) || (message.Error? && message.code.RoomFull?)
      ensures preferredId == if Welcomes(message) then message.id else old(preferredId)
      ensures reconnectDelayMs ==
        if Welcomes(message) then INITIAL_DELAY
        else if message.Error? && message.code.RateLimited? then MAXIMUM_DELAY
        else old(reconnectDelayMs)
      ensures welcomed == (old(welcomed) || Welcomes(message))
    {
      hide NotOlder, PeersAfter;
      UnchangedPeers(peers, admittedId, message, clockMs);
      if message.Error? {
        HandleError(message.code);
        return;
      }
      if message.id < 1 || message.id > 4294967295 { return; }
      HandleNamed(message, message.id, clockMs);
    }

    /** A message about the player `id`. */
    method HandleNamed(message: Message, id: uint32, clockMs: uint32)
      requires Valid() && !message.Error? && id == message.id >= 1
      modifies this
      ensures Valid() && memberRequested == old(memberRequested) && lastSendMs == old(lastSendMs) && sent == old(sent)
      ensures reconnectMs == old(reconnectMs) && policyStopped == old(policyStopped)
      ensures peers == PeersAfter(old(peers), old(admittedId), message, clockMs)
      ensures if message.Welcome?
        then admittedId == preferredId == id && !joinRetry && reconnectDelayMs == INITIAL_DELAY && welcomed
        else admittedId == old(admittedId) && preferredId == old(preferredId) && joinRetry == old(joinRetry)
             && reconnectDelayMs == old(reconnectDelayMs) && welcomed == old(welcomed)
    {
      hide NotOlder, PeersAfter;
      UnchangedPeers(peers, admittedId, message, clockMs);
      if message.Welcome? {
        admittedId, preferredId, reconnectDelayMs, joinRetry := id, id, INITIAL_DELAY, false;
        welcomed := true;
        return;
      }
      if message.Leaving? {
        FewerKeys(peers, id);
        peers := peers - {id};
        return;
      }
      if message.Snapshot? && id != admittedId { HoldSnapshot(id, message.payload, clockMs); }
    }

    /** `jitter` is the random part of the delay, at most half of it. */
    method HandleDisconnected(jitter: nat)
      requires Valid() && jitter <= reconnectDelayMs / 2
      modifies this
      ensures Valid() && admittedId == 0 && !welcomed && peers == map[] && !joinRetry
      ensures preferredId == if old(admittedId) != 0 then old(admittedId) else old(preferredId)
      ensures if memberRequested && !policyStopped
        then reconnectMs == Some(old(reconnectDelayMs) + jitter)
             && reconnectDelayMs == Min(2 * old(reconnectDelayMs), MAXIMUM_DELAY)
        else reconnectMs == old(reconnectMs) && reconnectDelayMs == old(reconnectDelayMs)
      ensures memberRequested == old(memberRequested) && policyStopped == old(policyStopped)
    {
      if admittedId != 0 { preferredId := admittedId; }
      admittedId, peers, joinRetry := 0, map[], false;
      welcomed := false;
      if memberRequested && !policyStopped {
        reconnectMs := Some(reconnectDelayMs + jitter);
        reconnectDelayMs := Min(reconnectDelayMs * 2, MAXIMUM_DELAY);
      }
    }
  }

  /** The peers held after a message. */
  function PeersAfter(peers: map<uint32, Peer>, own: uint32, message: Message, clockMs: uint32): map<uint32, Peer> {
    match message
    case Leaving(id) => if ValidId(id) then peers - {id} else peers
    case Snapshot(id, Some(p)) =>
      if !ValidId(id) || id == own then peers
      else if id in peers && !NotOlder(peers[id].frame, p.frame) then peers
      else if id !in peers && |peers| >= MAXIMUM_PEERS then peers
      else peers[id := p.(lastSeenMs := clockMs)]
    case _ => peers
  }

  /** Only a departure, and a snapshot of another player, change the peers. */
  lemma UnchangedPeers(peers: map<uint32, Peer>, own: uint32, message: Message, clockMs: uint32)
    ensures
      if message.Leaving? && ValidId(message.id) then PeersAfter(peers, own, message, clockMs) == peers - {message.id}
      else !(message.Snapshot? && ValidId(message.id) && message.id != own)
           ==> PeersAfter(peers, own, message, clockMs) == peers
  {
  }

  /** A message that arrives, and for a snapshot the frame number its sender means, counted without wrapping. */
  datatype Arrival = Arrival(message: Message, clockMs: uint32, frame: nat)

  predicate Updates(a: Arrival, id: int) {
    a.message.Snapshot? && a.message.id == id && a.message.payload.Some?
  }

  function PeersAfterAll(peers: map<uint32, Peer>, own: uint32, arrivals: seq<Arrival>): map<uint32, Peer>
    decreases |arrivals|
  {
    if arrivals == [] then peers
    else PeersAfterAll(PeersAfter(peers, own, arrivals[0].message, arrivals[0].clockMs), own, arrivals[1..])
  }

  /** The newest of a peer's frame numbers. */
  function Newest(first: nat, id: int, arrivals: seq<Arrival>): nat
    decreases |arrivals|
  {
    if arrivals == [] then first
    else Newest(if Updates(arrivals[0], id) then Max(first, arrivals[0].frame) else first, id, arrivals[1..])
  }

  /** The arrivals of a held peer that does not leave, its frame numbers less than half the circle apart. */
  predicate Spread(low: nat, first: nat, id: int, arrivals: seq<Arrival>) {
    && low <= first < low + 0x8000_0000
    && forall i | 0 <= i < |arrivals| ::
         && arrivals[i].message != Leaving(id)
         && (Updates(arrivals[i], id) ==>
               && low <= arrivals[i].frame < low + 0x8000_0000
               && arrivals[i].message.payload.value.frame == U32(arrivals[i].frame))
  }

  /**
   * Whatever arrives, in whatever order, twice or late, among any other messages and with a full table: a held peer
   * that does not leave stays held, with the newest frame number received.
   */
  lemma {:induction false} NewestIsHeld(peers: map<uint32, Peer>, own: uint32, id: uint32, low: nat, first: nat,
                                        arrivals: seq<Arrival>)
    requires id != own && ValidId(id) && id in peers && peers[id].frame == U32(first)
    requires Spread(low, first, id, arrivals)
    ensures var after := PeersAfterAll(peers, own, arrivals);
      id in after && after[id].frame == U32(Newest(first, id, arrivals))
    decreases |arrivals|
  {
    hide NotOlder;
    if arrivals == [] {
    } else {
      var a := arrivals[0];
      var next := if Updates(a, id) then Max(first, a.frame) else first;
      HeldAfter(peers, own, id, low, first, a);
      NewestIsHeld(PeersAfter(peers, own, a.message, a.clockMs), own, id, low, next, arrivals[1..]);
    }
  }

  lemma HeldAfter(peers: map<uint32, Peer>, own: uint32, id: uint32, low: nat, first: nat, a: Arrival)
    requires id != own && ValidId(id) && id in peers && peers[id].frame == U32(first) && Spread(low, first, id, [a])
    ensures var after := PeersAfter(peers, own, a.message, a.clockMs);
      id in after && after[id].frame == U32(if Updates(a, id) then Max(first, a.frame) else first)
  {
    hide NotOlder;
    assert [a][0] == a;
    if Updates(a, id) {
      if first <= a.frame { FramesInOrder(first, a.frame); } else { FramesInOrder(a.frame, first); }
    }
  }

  /** A held peer is only ever replaced by a snapshot that is not older than the one held. */
  lemma FrameOrder(peers: map<uint32, Peer>, own: uint32, message: Message, clockMs: uint32)
    ensures var after := PeersAfter(peers, own, message, clockMs);
      forall id | id in peers && id in after :: NotOlder(peers[id].frame, after[id].frame)
  {
  }

  lemma FewerKeys(m: map<uint32, Peer>, id: uint32)
    ensures |m - {id}| <= |m|
  {
    var n := m - {id};
    assert n.Keys == m.Keys - {id};
    assert |n.Keys| <= |m.Keys|;
  }

  lemma OneMoreKey(m: map<uint32, Peer>, id: uint32, p: Peer)
    ensures |m[id := p]| == if id in m then |m| else |m| + 1
  {
    assert m[id := p].Keys == m.Keys + {id};
    if id in m { assert m.Keys + {id} == m.Keys; }
  }
}
