/** The framed device protocol: a resynchronising stream parser and its encoder. */
module IoStream {
  import opened Words
  import Crc

  /** "PRG32IO" and a zero byte. */
  const MAGIC: seq<uint8> := [0x50, 0x52, 0x47, 0x33, 0x32, 0x49, 0x4f, 0x00]
  const MAGIC_SIZE: nat := 8
  const HEADER_SIZE: nat := 24
  const VERSION: uint8 := 1
  const MAXIMUM_PAYLOAD: nat := 16 * 1024

  /** What a complete frame causes: its message handled, or its checksum refused. */
  datatype Event = Handled(kind: uint8, request: uint32, payload: seq<uint8>) | Refused(request: uint32)

  datatype Pass = Stop(rest: seq<uint8>) | Skip(rest: seq<uint8>) | Take(event: Event, rest: seq<uint8>)
  datatype Parsed = Parsed(events: seq<Event>, rest: seq<uint8>)

  function Crc32(s: seq<uint8>): uint32 {
    Crc.Checksum(Crc.Bits(s))
  }

  predicate MagicAt(b: seq<uint8>, k: nat) {
    k + MAGIC_SIZE <= |b| && b[k..k + MAGIC_SIZE] == MAGIC
  }

  /** The first place where the magic stands, as QByteArray::indexOf finds it. */
  ghost predicate FirstMagic(b: seq<uint8>, k: nat) {
    MagicAt(b, k) && forall j: nat | j < k :: !MagicAt(b, j)
  }

  function FindMagic(b: seq<uint8>, from: nat): (r: Option<nat>)
    requires from <= |b|
    ensures r.Some? ==> from <= r.value && MagicAt(b, r.value) && forall j: nat | from <= j < r.value :: !MagicAt(b, j)
    ensures r.None? ==> forall j: nat | from <= j :: !MagicAt(b, j)
    decreases |b| - from
  {
    if from + MAGIC_SIZE > |b| then None
    else if MagicAt(b, from) then Some(from)
    else FindMagic(b, from + 1)
  }

  function Right(b: seq<uint8>, n: nat): seq<uint8> {
    b[|b| - Min(|b|, n)..]
  }

  /** One pass over a buffer that starts with the magic. */
  function Examine(c: seq<uint8>): Pass {
    if |c| < HEADER_SIZE then Stop(c)
    else
      var size := Le32(c, 16);
      if c[8] != VERSION || size > MAXIMUM_PAYLOAD then Skip(c[1..])
      else if |c| < HEADER_SIZE + size then Stop(c)
      else
        var payload := c[HEADER_SIZE..HEADER_SIZE + size];
        var event := if Crc32(payload) != Le32(c, 20) then Refused(Le32(c, 12))
                     else Handled(c[9], Le32(c, 12), payload);
        Take(event, c[HEADER_SIZE + size..])
  }

  function OnePass(b: seq<uint8>): Pass {
    match FindMagic(b, 0)
    case None => Stop(Right(b, MAGIC_SIZE - 1))
    case Some(k) => Examine(b[k..])
  }

  /** Everything a buffer delivers, and what stays behind. */
  function Parse(b: seq<uint8>): Parsed
    decreases |b|
  {
    match OnePass(b)
    case Stop(rest) => Parsed([], rest)
    case Skip(rest) => Parse(rest)
    case Take(event, rest) => var p := Parse(rest); Parsed([event] + p.events, p.rest)
  }

  /** One connection's buffer and the messages it has delivered so far. */
  class Connection {
    var buffer: seq<uint8>
    var delivered: seq<Event>

    constructor ()
      ensures buffer == [] && delivered == []
    {
      buffer, delivered := [], [];
    }

    /** Consume complete frames, resynchronising on the magic. */
    method Process()
      modifies this
      ensures buffer == Parse(old(buffer)).rest
      ensures delivered == old(delivered) + Parse(old(buffer)).events
    {
      hide Crc32, Le32, Parse, FindMagic;
      while true
        invariant Parse(buffer).rest == Parse(old(buffer)).rest
        invariant delivered + Parse(buffer).events == old(delivered) + Parse(old(buffer)).events
        decreases |buffer|
      {
        var start := FindMagic(buffer, 0);
        ParseUnfolds(buffer);
        if start.None? {
          buffer := buffer[|buffer| - Min(|buffer|, MAGIC_SIZE - 1)..];
          return;
        }
        if start.value != 0 {
          SkipToMagic(buffer, start.value);
          buffer := buffer[start.value..];
          ParseUnfolds(buffer);
        }
        assert buffer[0..] == buffer;
        if |buffer| < HEADER_SIZE { return; }
        var version, kind := buffer[8], buffer[9];
        var requestId, size, checksum := Le32(buffer, 12), Le32(buffer, 16), Le32(buffer, 20);
        if version != VERSION || size > MAXIMUM_PAYLOAD {
          buffer := buffer[1..];
          continue;
        }
        if |buffer| < HEADER_SIZE + size { return; }
        var payload := buffer[HEADER_SIZE..HEADER_SIZE + size];
        buffer := buffer[HEADER_SIZE + size..];
        if Crc32(payload) != checksum {
          delivered := delivered + [Refused(requestId)];
          continue;
        }
        delivered := delivered + [Handled(kind, requestId, payload)];
      }
    }

    /** A packet arrives. */
    method Receive(data: seq<uint8>)
      modifies this
      ensures buffer == Parse(old(buffer) + data).rest
      ensures delivered == old(delivered) + Parse(old(buffer) + data).events
    {
      buffer := buffer + data;
      Process();
    }
  }

  lemma ParseUnfolds(b: seq<uint8>)
    ensures match OnePass(b)
      case Stop(rest) => Parse(b) == Parsed([], rest)
      case Skip(rest) => |rest| < |b| && Parse(b) == Parse(rest)
      case Take(event, rest) => |rest| < |b| && Parse(b) == Parsed([event] + Parse(rest).events, Parse(rest).rest)
  {
    hide FindMagic, Examine;
    match FindMagic(b, 0)
    case None =>
    case Some(k) => ExamineConsumes(b[k..]);
  }

  lemma ExamineConsumes(c: seq<uint8>)
    ensures match Examine(c) case Stop(rest) => rest == c case Skip(rest) => |rest| < |c| case Take(_, rest) => |rest| < |c|
  {
    hide Crc32, Le32;
  }

  lemma FindFirst(b: seq<uint8>, k: nat)
    requires FirstMagic(b, k)
    ensures FindMagic(b, 0) == Some(k)
  {
  }

  lemma SkipToMagic(b: seq<uint8>, k: nat)
    requires FindMagic(b, 0) == Some(k)
    ensures FindMagic(b[k..], 0) == Some(0) && Parse(b[k..]) == Parse(b)
  {
    assert b[k..][..MAGIC_SIZE] == b[k..k + MAGIC_SIZE];
    assert b[k..][0..] == b[k..];
  }

  // Independence of packet boundaries.

  lemma MagicInPrefix(a: seq<uint8>, b: seq<uint8>, k: nat)
    ensures k + MAGIC_SIZE <= |a| ==> (MagicAt(a, k) <==> MagicAt(a + b, k))
    ensures forall d: nat | d <= k && d <= |a| :: MagicAt(a[d..], k - d) <==> MagicAt(a, k)
  {
    if k + MAGIC_SIZE <= |a| { assert (a + b)[k..k + MAGIC_SIZE] == a[k..k + MAGIC_SIZE]; }
    forall d: nat | d <= k && d <= |a| ensures MagicAt(a[d..], k - d) <==> MagicAt(a, k) {
      if k + MAGIC_SIZE <= |a| { assert a[d..][k - d..k - d + MAGIC_SIZE] == a[k..k + MAGIC_SIZE]; }
    }
  }

  /** Dropping bytes before which no magic can start does not change what is found. */
  lemma DropMagicless(b: seq<uint8>, d: nat)
    requires d <= |b| && forall k: nat | k < d :: !MagicAt(b, k)
    ensures match FindMagic(b[d..], 0) case None => FindMagic(b, 0).None? case Some(k) => FindMagic(b, 0) == Some(k + d)
  {
    hide MagicAt;
    match FindMagic(b[d..], 0)
    case None =>
      forall k: nat | k >= d ensures !MagicAt(b, k) { ShiftMagic(b, d, k); }
      NoneFound(b);
    case Some(k) =>
      forall j: nat | d <= j < k + d ensures !MagicAt(b, j) { ShiftMagic(b, d, j); }
      ShiftMagic(b, d, k + d);
      FindFirst(b, k + d);
  }

  lemma ShiftMagic(b: seq<uint8>, d: nat, k: nat)
    requires d <= k && d <= |b|
    ensures MagicAt(b[d..], k - d) <==> MagicAt(b, k)
  {
    MagicInPrefix(b, [], k);
  }

  lemma NoneFound(b: seq<uint8>)
    requires forall k: nat :: !MagicAt(b, k)
    ensures FindMagic(b, 0).None?
  {
  }

  lemma ParseDrop(b: seq<uint8>, d: nat)
    requires d <= |b| && forall k: nat | k < d :: !MagicAt(b, k)
    requires FindMagic(b, 0).None? ==> |b| - d >= MAGIC_SIZE - 1
    ensures Parse(b[d..]) == Parse(b)
  {
    hide Parse, FindMagic, Examine;
    ParseUnfolds(b);
    ParseUnfolds(b[d..]);
    DropMagicless(b, d);
    match FindMagic(b, 0)
    case None => RightOfDrop(b, d, MAGIC_SIZE - 1);
    case Some(k) => DropAgain(b, d, k);
  }

  lemma RightOfDrop(b: seq<uint8>, d: nat, n: nat)
    requires d + n <= |b|
    ensures Right(b[d..], n) == Right(b, n)
  {
  }

  lemma DropAgain(b: seq<uint8>, d: nat, k: nat)
    requires d <= k <= |b|
    ensures b[d..][k - d..] == b[k..]
  {
  }

  lemma ExamineMore(c: seq<uint8>, b: seq<uint8>)
    ensures match Examine(c)
      case Stop(rest) => rest == c
      case Skip(rest) => Examine(c + b) == Skip(rest + b)
      case Take(event, rest) => Examine(c + b) == Take(event, rest + b)
  {
    if |c| >= HEADER_SIZE {
      var size := Le32(c, 16);
      assert Le32(c + b, 16) == size && Le32(c + b, 12) == Le32(c, 12) && Le32(c + b, 20) == Le32(c, 20);
      assert (c + b)[1..] == c[1..] + b;
      if |c| >= HEADER_SIZE + size {
        assert (c + b)[HEADER_SIZE..HEADER_SIZE + size] == c[HEADER_SIZE..HEADER_SIZE + size];
        assert (c + b)[HEADER_SIZE + size..] == c[HEADER_SIZE + size..] + b;
      }
    }
  }

  /** Parsing what one packet left behind together with the next is parsing both packets at once. */
  lemma {:induction false} SplitAnywhere(a: seq<uint8>, b: seq<uint8>)
    ensures var p, q := Parse(a), Parse(Parse(a).rest + b);
      Parse(a + b) == Parsed(p.events + q.events, q.rest)
    decreases |a|
  {
    hide Parse, FindMagic, Examine;
    ParseUnfolds(a);
    ParseUnfolds(a + b);
    match FindMagic(a, 0)
    case None =>
      var d := |a| - Min(|a|, MAGIC_SIZE - 1);
      NoMagicAcross(a, b, d);
      assert (a + b)[d..] == Right(a, MAGIC_SIZE - 1) + b;
      if d > 0 { ParseDrop(a + b, d); } else { assert (a + b)[0..] == a + b; }
    case Some(k) =>
      var c := a[k..];
      SameMagic(a, b, k);
      assert (a + b)[k..] == c + b;
      ExamineMore(c, b);
      match Examine(c)
      case Stop(rest) =>
        FirstAcross(a, b, k);
        ParseDrop(a + b, k);
      case Skip(rest) => SplitAnywhere(rest, b);
      case Take(event, rest) => SplitAnywhere(rest, b);
  }

  lemma NoMagicAcross(a: seq<uint8>, b: seq<uint8>, d: nat)
    requires FindMagic(a, 0).None? && d == |a| - Min(|a|, MAGIC_SIZE - 1)
    ensures forall k: nat | k < d :: !MagicAt(a + b, k)
  {
    forall k: nat | k < d ensures !MagicAt(a + b, k) { MagicInPrefix(a, b, k); }
  }

  lemma FirstAcross(a: seq<uint8>, b: seq<uint8>, k: nat)
    requires FindMagic(a, 0) == Some(k)
    ensures FirstMagic(a + b, k)
  {
    forall j: nat | j <= k ensures MagicAt(a + b, j) <==> MagicAt(a, j) { MagicInPrefix(a, b, j); }
  }

  lemma SameMagic(a: seq<uint8>, b: seq<uint8>, k: nat)
    requires FindMagic(a, 0) == Some(k)
    ensures FindMagic(a + b, 0) == Some(k)
  {
    FirstAcross(a, b, k);
    FindFirst(a + b, k);
  }

  function Flatten(packets: seq<seq<uint8>>): seq<uint8>
    decreases |packets|
  {
    if packets == [] then [] else packets[0] + Flatten(packets[1..])
  }

  /** What a connection holding `rest` delivers and keeps as packets arrive one by one. */
  function Feed(rest: seq<uint8>, packets: seq<seq<uint8>>): Parsed
    decreases |packets|
  {
    if packets == [] then Parsed([], rest)
    else
      var p := Parse(rest + packets[0]);
      var q := Feed(p.rest, packets[1..]);
      Parsed(p.events + q.events, q.rest)
  }

  lemma {:induction false} FeedIsParse(rest: seq<uint8>, packets: seq<seq<uint8>>)
    requires Parse(rest) == Parsed([], rest)
    ensures Feed(rest, packets) == Parse(rest + Flatten(packets))
    decreases |packets|
  {
    hide Parse;
    if packets == [] {
      assert rest + [] == rest;
    } else {
      var first := rest + packets[0];
      var more := Flatten(packets[1..]);
      SplitAnywhere(first, more);
      RestIsStable(first);
      FeedIsParse(Parse(first).rest, packets[1..]);
      assert rest + Flatten(packets) == first + more;
    }
  }

  /** Bytes left behind deliver nothing by themselves. */
  lemma {:induction false} RestIsStable(b: seq<uint8>)
    ensures var r := Parse(b).rest; Parse(r) == Parsed([], r)
    decreases |b|
  {
    match FindMagic(b, 0)
    case None =>
      var r := Right(b, MAGIC_SIZE - 1);
      assert FindMagic(r, 0).None? && Right(r, MAGIC_SIZE - 1) == r;
    case Some(k) =>
      match Examine(b[k..])
      case Stop(rest) => SkipToMagic(b, k);
      case Skip(rest) => RestIsStable(rest);
      case Take(_, rest) => RestIsStable(rest);
  }

  lemma NothingToParse()
    ensures Parse([]) == Parsed([], [])
  {
    assert Right([], MAGIC_SIZE - 1) == [];
  }

  /** Any two ways of cutting the same bytes into packets deliver the same messages and keep the same bytes. */
  lemma PacketBoundariesDoNotMatter(packets: seq<seq<uint8>>, others: seq<seq<uint8>>)
    requires Flatten(packets) == Flatten(others)
    ensures Feed([], packets) == Feed([], others) == Parse(Flatten(packets))
  {
    NothingToParse();
    FeedIsParse([], packets);
    FeedIsParse([], others);
    assert [] + Flatten(packets) == Flatten(packets);
  }

  /** The bytes kept between packets are always shorter than one maximal frame. */
  lemma {:induction false} RestIsShort(b: seq<uint8>)
    ensures |Parse(b).rest| < HEADER_SIZE + MAXIMUM_PAYLOAD
    decreases |b|
  {
    match OnePass(b)
    case Stop(_) =>
    case Skip(rest) => RestIsShort(rest);
    case Take(_, rest) => RestIsShort(rest);
  }

  // Encoding.

  datatype Message = Message(kind: uint8, flags: uint16, request: uint32, payload: seq<uint8>)

  /** A message on the wire. */
  function Encode(m: Message): seq<uint8> {
    MAGIC + [VERSION, m.kind] + Bytes16(m.flags)
    + Bytes32(m.request) + Bytes32(U32(|m.payload|)) + Bytes32(Crc32(m.payload)) + m.payload
  }

  method Put(frame: array<uint8>, o: nat, bytes: seq<uint8>)
    requires o + |bytes| <= frame.Length
    modifies frame
    ensures frame[..o + |bytes|] == old(frame[..o]) + bytes
  {
    for i := 0 to |bytes|
      invariant frame[..o + i] == old(frame[..o]) + bytes[..i]
    {
      frame[o + i] := bytes[i];
    }
  }

  /** send: the header fields one after the other into a fresh buffer, then the payload behind them. */
  method Send(m: Message) returns (frame: array<uint8>)
    ensures fresh(frame) && frame[..] == Encode(m)
  {
    hide Crc32, Bytes16, Bytes32;
    frame := new uint8[HEADER_SIZE + |m.payload|];
    Put(frame, 0, MAGIC);
    Put(frame, 8, [VERSION, m.kind]);
    Put(frame, 10, Bytes16(m.flags));
    Put(frame, 12, Bytes32(m.request));
    Put(frame, 16, Bytes32(U32(|m.payload|)));
    Put(frame, 20, Bytes32(Crc32(m.payload)));
    Put(frame, HEADER_SIZE, m.payload);
    assert frame[..HEADER_SIZE + |m.payload|] == frame[..];
  }

  predicate Sendable(ms: seq<Message>) {
    forall i | 0 <= i < |ms| :: |ms[i].payload| <= MAXIMUM_PAYLOAD
  }

  function EncodeAll(ms: seq<Message>): seq<uint8>
    decreases |ms|
  {
    if ms == [] then [] else Encode(ms[0]) + EncodeAll(ms[1..])
  }

  function Deliveries(ms: seq<Message>): seq<Event> {
    seq(|ms|, i requires 0 <= i < |ms| => Handled(ms[i].kind, ms[i].request, ms[i].payload))
  }

  /** A frame with any checksum field is taken whole, and handled or refused by that field. */
  lemma ExamineFrame(kind: uint8, flags: uint16, request: uint32, payload: seq<uint8>, crc: uint32, more: seq<uint8>)
    requires |payload| <= MAXIMUM_PAYLOAD
    ensures var f := MAGIC + [VERSION, kind] + Bytes16(flags)
        + Bytes32(request) + Bytes32(|payload|) + Bytes32(crc) + payload + more;
      && MagicAt(f, 0)
      && Examine(f) == Take(if Crc32(payload) != crc then Refused(request) else Handled(kind, request, payload), more)
  {
    hide Crc32;
    var head := MAGIC + [VERSION, kind] + Bytes16(flags)
                + Bytes32(request) + Bytes32(|payload|) + Bytes32(crc);
    var f := head + payload + more;
    Bytes32RoundTrip(request);
    Bytes32RoundTrip(|payload|);
    Bytes32RoundTrip(crc);
    assert |head| == HEADER_SIZE;
    assert f[..MAGIC_SIZE] == MAGIC;
    assert Le32(f, 12) == Le32(Bytes32(request), 0);
    assert Le32(f, 16) == Le32(Bytes32(|payload|), 0);
    assert Le32(f, 20) == Le32(Bytes32(crc), 0);
    assert f[HEADER_SIZE..HEADER_SIZE + |payload|] == payload;
    assert f[HEADER_SIZE + |payload|..] == more;
  }

  /** The magic overlaps itself nowhere, so noise before a frame cannot complete an earlier one. */
  lemma NoEarlierMagic(noise: seq<uint8>, f: seq<uint8>, k: nat)
    requires MagicAt(f, 0) && k < |noise| && forall j: nat :: !MagicAt(noise, j)
    ensures !MagicAt(noise + f, k)
  {
    var b := noise + f;
    if k + MAGIC_SIZE <= |noise| {
      MagicInPrefix(noise, f, k);
    } else {
      assert f[..MAGIC_SIZE][0] == MAGIC[0];
      assert b[k..k + MAGIC_SIZE][|noise| - k] == f[0];
    }
  }

  lemma {:induction false} DecodeEncodedAll(ms: seq<Message>)
    requires Sendable(ms)
    ensures Parse(EncodeAll(ms)) == Parsed(Deliveries(ms), [])
    decreases |ms|
  {
    hide Crc32, Examine, FindMagic, Bytes32, Parse;
    if ms == [] {
      NothingToParse();
    } else {
      var m, more := ms[0], EncodeAll(ms[1..]);
      ExamineFrame(m.kind, m.flags, m.request, m.payload, Crc32(m.payload), more);
      var f := Encode(m) + more;
      FindFirst(f, 0);
      assert f[0..] == f;
      ParseUnfolds(f);
      DecodeEncodedAll(ms[1..]);
      assert Deliveries(ms) == [Handled(m.kind, m.request, m.payload)] + Deliveries(ms[1..]);
    }
  }

  /** Messages sent after any noise that does not contain the magic are delivered exactly, whatever the packets. */
  lemma RoundTrip(noise: seq<uint8>, ms: seq<Message>, packets: seq<seq<uint8>>)
    requires Sendable(ms) && forall j: nat :: !MagicAt(noise, j)
    requires Flatten(packets) == noise + EncodeAll(ms)
    ensures Feed([], packets) == Parsed(Deliveries(ms), if ms == [] then Right(noise, MAGIC_SIZE - 1) else [])
  {
    PacketBoundariesDoNotMatter(packets, packets);
    if ms == [] {
      assert noise + EncodeAll(ms) == noise && Deliveries(ms) == [];
      NoneFound(noise);
      ParseUnfolds(noise);
    } else {
      AfterNoise(noise, ms);
    }
  }

  lemma AfterNoise(noise: seq<uint8>, ms: seq<Message>)
    requires Sendable(ms) && ms != [] && forall j: nat :: !MagicAt(noise, j)
    ensures Parse(noise + EncodeAll(ms)) == Parsed(Deliveries(ms), [])
  {
    var f := EncodeAll(ms);
    var m := ms[0];
    ExamineFrame(m.kind, m.flags, m.request, m.payload, Crc32(m.payload), EncodeAll(ms[1..]));
    forall k: nat | k < |noise| ensures !MagicAt(noise + f, k) { NoEarlierMagic(noise, f, k); }
    assert (noise + f)[|noise|..] == f;
    FindFirst(f, 0);
    DropMagicless(noise + f, |noise|);
    ParseDrop(noise + f, |noise|);
    DecodeEncodedAll(ms);
  }

  /** A header that starts at k and names another version, or a payload that is too long. */
  predicate FalseHeader(b: seq<uint8>, k: nat) {
    k + HEADER_SIZE <= |b| ==> b[k + 8] != VERSION || Le32(b, k + 16) > MAXIMUM_PAYLOAD
  }

  /** Every magic that starts in the first `n` bytes belongs to a false header. */
  ghost predicate FalseStarts(b: seq<uint8>, n: nat) {
    forall k: nat | k < n && MagicAt(b, k) :: FalseHeader(b, k)
  }

  /**
   * Messages are delivered exactly behind any noise, even noise that contains the magic, as long as no complete and
   * acceptable header starts in it; whatever the packets. No byte too many is skipped.
   */
  lemma RoundTripPastFalseHeaders(noise: seq<uint8>, ms: seq<Message>, packets: seq<seq<uint8>>)
    requires Sendable(ms) && Flatten(packets) == noise + EncodeAll(ms) && FalseStarts(Flatten(packets), |noise|)
    ensures Feed([], packets).events == Deliveries(ms)
    ensures ms != [] ==> Feed([], packets).rest == []
  {
    PacketBoundariesDoNotMatter(packets, packets);
    PastFalseHeaders(noise, ms);
  }

  lemma {:induction false} PastFalseHeaders(noise: seq<uint8>, ms: seq<Message>)
    requires Sendable(ms) && FalseStarts(noise + EncodeAll(ms), |noise|)
    ensures var p := Parse(noise + EncodeAll(ms)); p.events == Deliveries(ms) && (ms != [] ==> p.rest == [])
    decreases |noise|
  {
    hide Parse, FindMagic, Examine, MagicAt, Deliveries, EncodeAll, FalseStarts, FalseHeader, Sendable;
    var f := EncodeAll(ms);
    var b := noise + f;
    ParseUnfolds(b);
    match FindMagic(b, 0)
    case None =>
      NoiseOnly(noise, ms);
    case Some(k) =>
      if k < |noise| {
        SkipsOne(b, k, |noise|);
        if Examine(b[k..]).Skip? {
          assert b[k + 1..] == noise[k + 1..] + f;
          LaterFalseStarts(b, k + 1, |noise|);
          PastFalseHeaders(noise[k + 1..], ms);
        } else {
          IncompleteHeader(noise, ms, k);
        }
      } else {
        CleanNoise(noise, ms);
      }
  }

  /** A false header costs one byte, or waits for more when it is not complete. */
  lemma SkipsOne(b: seq<uint8>, k: nat, n: nat)
    requires FindMagic(b, 0) == Some(k) && k < n <= |b| && FalseStarts(b, n)
    ensures Examine(b[k..]) == if |b| < k + HEADER_SIZE then Stop(b[k..]) else Skip(b[k + 1..])
  {
    hide FindMagic;
    var c := b[k..];
    assert FalseHeader(b, k);
    if |b| >= k + HEADER_SIZE {
      assert c[8] == b[k + 8] && c[16] == b[k + 16] && c[17] == b[k + 17] && c[18] == b[k + 18] && c[19] == b[k + 19];
      assert Le32(c, 16) == Le32(b, k + 16) && c[1..] == b[k + 1..];
    }
  }

  lemma LaterFalseStarts(b: seq<uint8>, d: nat, n: nat)
    requires d <= n <= |b| && FalseStarts(b, n)
    ensures FalseStarts(b[d..], n - d)
  {
    forall k: nat | k < n - d && MagicAt(b[d..], k) ensures FalseHeader(b[d..], k) {
      ShiftMagic(b, d, k + d);
      assert FalseHeader(b, k + d);
      if k + HEADER_SIZE <= |b[d..]| { assert Le32(b[d..], k + 16) == Le32(b, k + d + 16); }
    }
  }

  lemma NoiseOnly(noise: seq<uint8>, ms: seq<Message>)
    requires FindMagic(noise + EncodeAll(ms), 0).None? && Sendable(ms)
    ensures ms == [] && Deliveries(ms) == []
  {
    hide FindMagic, Crc32;
    if ms != [] {
      FrameStarts(ms);
      MagicInSuffix(noise, EncodeAll(ms));
    }
  }

  lemma FrameStarts(ms: seq<Message>)
    requires ms != [] && Sendable(ms)
    ensures MagicAt(EncodeAll(ms), 0) && |EncodeAll(ms)| >= HEADER_SIZE
  {
    hide Crc32;
    var m := ms[0];
    ExamineFrame(m.kind, m.flags, m.request, m.payload, Crc32(m.payload), EncodeAll(ms[1..]));
  }

  lemma MagicInSuffix(a: seq<uint8>, b: seq<uint8>)
    ensures MagicAt(b, 0) ==> MagicAt(a + b, |a|)
  {
    assert (a + b)[|a|..] == b;
    ShiftMagic(a + b, |a|, |a|);
  }

  lemma IncompleteHeader(noise: seq<uint8>, ms: seq<Message>, k: nat)
    requires k < |noise| && |noise + EncodeAll(ms)| < k + HEADER_SIZE && Sendable(ms)
    ensures ms == [] && Deliveries(ms) == []
  {
    if ms != [] { FrameStarts(ms); }
  }

  lemma CleanNoise(noise: seq<uint8>, ms: seq<Message>)
    requires Sendable(ms)
    requires FindMagic(noise + EncodeAll(ms), 0).Some? && FindMagic(noise + EncodeAll(ms), 0).value >= |noise|
    ensures ms != [] && Parse(noise + EncodeAll(ms)) == Parsed(Deliveries(ms), [])
  {
    hide FindMagic, Parse, EncodeAll, Deliveries, MagicAt;
    var f := EncodeAll(ms);
    forall j: nat ensures !MagicAt(noise, j) { MagicOfPrefix(noise, f, j); }
    if ms == [] { NoMessages(noise); }
    AfterNoise(noise, ms);
  }

  lemma MagicOfPrefix(a: seq<uint8>, b: seq<uint8>, j: nat)
    requires FindMagic(a + b, 0).Some? && FindMagic(a + b, 0).value >= |a|
    ensures !MagicAt(a, j)
  {
    hide FindMagic;
    if j + MAGIC_SIZE <= |a| { MagicInPrefix(a, b, j); }
  }

  lemma NoMessages(noise: seq<uint8>)
    ensures !(FindMagic(noise + EncodeAll([]), 0).Some? && FindMagic(noise + EncodeAll([]), 0).value >= |noise|)
  {
    assert noise + EncodeAll([]) == noise;
  }

  /** The payload received differs from the one sent by a burst of up to 32 bits. */
  predicate Damaged(sent: seq<uint8>, got: seq<uint8>, at: nat) {
    Crc.Burst(Crc.Stream(Crc.Bits(sent)), Crc.Stream(Crc.Bits(got)), at)
  }

  lemma StreamSize(s: seq<uint8>)
    ensures |Crc.Stream(Crc.Bits(s))| == 8 * |s|
  {
  }

  /** A payload damaged by any burst of up to 32 bits is refused, never handled, and what follows is still parsed. */
  lemma DamageIsRefused(kind: uint8, flags: uint16, request: uint32, sent: seq<uint8>, got: seq<uint8>, at: nat,
                        more: seq<uint8>)
    requires Damaged(sent, got, at) && |got| <= MAXIMUM_PAYLOAD
    ensures |sent| == |got|
    ensures Parse(MAGIC + [VERSION, kind] + Bytes16(flags) + Bytes32(request)
                  + Bytes32(|sent|) + Bytes32(Crc32(sent)) + got + more)
            == Parsed([Refused(request)] + Parse(more).events, Parse(more).rest)
  {
    hide Crc.Bits, Crc.Stream, Crc.Checksum, Examine, Parse, FindMagic;
    StreamSize(sent);
    StreamSize(got);
    Crc.BurstDetected(Crc.Bits(sent), Crc.Bits(got), at);
    ExamineFrame(kind, flags, request, got, Crc32(sent), more);
    var f := MAGIC + [VERSION, kind] + Bytes16(flags) + Bytes32(request)
             + Bytes32(|sent|) + Bytes32(Crc32(sent)) + got + more;
    FindFirst(f, 0);
    assert f[0..] == f;
    ParseUnfolds(f);
  }

  /** Damage inside any window of four bytes is such a burst. */
  lemma WindowIsDamage(p: seq<uint8>, w: seq<uint8>, v: seq<uint8>, q: seq<uint8>)
    requires |w| == |v| <= 4 && w != v
    ensures Damaged(p + w + q, p + v + q, 8 * |p|)
  {
    hide Crc.Bits, Crc.Stream, Crc.Burst;
    if Crc.Bits(w) == Crc.Bits(v) { Crc.BitsInjective(w, v); }
    Crc.BitsConcat(p + w, q);
    Crc.BitsConcat(p, w);
    Crc.BitsConcat(p + v, q);
    Crc.BitsConcat(p, v);
    Crc.WindowIsBurst(Crc.Bits(p), Crc.Bits(w), Crc.Bits(v), Crc.Bits(q));
  }
}
