/** The retransmitting cartridge upload: its three messages, and a sender over a channel that loses replies. */
module Upload {
  import opened Words
  import opened IoStream

  const MAXIMUM_CHUNK: nat := 4 * 1024
  const MAXIMUM_CARTRIDGE: nat := 128 * 1024

  /** What to do with a stored cartridge. */
  datatype Command = Store | Run | Debug | Performance

  datatype CommandField = Missing | Known(command: Command) | Unknown

  /** UPLOAD_BEGIN metadata as JSON delivers it: numbers are reals, -1 standing for a missing or mistyped one. */
  datatype Metadata = Metadata(named: bool, slot: int, size: real, crc: real, command: CommandField)

  datatype Reply = Accepted | Received(total: nat) | Complete | Failed(reason: Reason)
  datatype Reason = InvalidMetadata | NoUpload | InvalidChunk | OutOfOrder | Mismatch | Unstorable | Unselectable

  /** `slot` is -1 while no upload is active; `slots` is what the controller has stored. */
  datatype Server = Server(
    buffer: seq<uint8>, slot: int, size: uint32, crc: uint32, command: Command, slots: map<int, seq<uint8>>)

  function CommandOf(field: CommandField): Command {
    if field.Known? then field.command else Store
  }

  predicate Integral(v: real) {
    v == v.Floor as real
  }

  predicate ValidMetadata(meta: Metadata) {
    && meta.named && meta.slot >= 0 && !meta.command.Unknown?
    && meta.size > 0.0 && meta.size <= MAXIMUM_CARTRIDGE as real && Integral(meta.size)
    && meta.crc >= 0.0 && meta.crc <= 4294967295.0 && Integral(meta.crc)
  }

  function Begin(u: Server, meta: Metadata): (Server, Reply) {
    if ValidMetadata(meta) then
      (u.(buffer := [], slot := meta.slot, size := meta.size.Floor, crc := meta.crc.Floor,
          command := CommandOf(meta.command)), Accepted)
    else (u, Failed(InvalidMetadata))
  }

  function Data(u: Server, payload: seq<uint8>): (Server, Reply) {
    if u.slot < 0 then (u, Failed(NoUpload))
    else if |payload| <= 4 || |payload| - 4 > MAXIMUM_CHUNK then (u, Failed(InvalidChunk))
    else
      var offset, data := Le32(payload, 0), payload[4..];
      if offset + |data| == |u.buffer| then (u, Received(|u.buffer|))
      else if offset != |u.buffer| || |u.buffer| + |data| > u.size then (u, Failed(OutOfOrder))
      else (u.(buffer := u.buffer + data), Received(|u.buffer| + |data|))
  }

  /** The controller's verdicts: whether the file can be stored, and whether the stored slot can then be started. */
  datatype Verdict = Verdict(storable: bool, selectable: bool)

  function End(u: Server, v: Verdict): (Server, Reply) {
    if u.slot < 0 then (u, Failed(NoUpload))
    else if |u.buffer| != u.size || Crc32(u.buffer) != u.crc then (u.(slot := -1), Failed(Mismatch))
    else if !v.storable then (u.(slot := -1), Failed(Unstorable))
    else
      (u.(slot := -1, slots := u.slots[u.slot := u.buffer]),
       if u.command != Store && !v.selectable then Failed(Unselectable) else Complete)
  }

  /** The host disconnected, or was silent for too long: the end of an upload that is under way. */
  function Abandon(u: Server): Server {
    if u.slot >= 0 then u.(buffer := [], slot := -1) else u
  }

  class IoProtocolServer {
    var upload: seq<uint8>
    var uploadSlot: int
    var uploadSize: uint32
    var uploadCrc: uint32
    var uploadCommand: Command
    var slots: map<int, seq<uint8>>

    function State(): Server
      reads this
    {
      Server(upload, uploadSlot, uploadSize, uploadCrc, uploadCommand, slots)
    }

    constructor ()
      ensures State() == Server([], -1, 0, 0, Store, map[])
    {
      upload, uploadSlot, uploadSize, uploadCrc, uploadCommand, slots := [], -1, 0, 0, Store, map[];
    }

    method HandleBegin(meta: Metadata) returns (reply: Reply)
      modifies this
      ensures (State(), reply) == Begin(old(State()), meta)
    {
      if !meta.named || meta.slot < 0 || meta.size <= 0.0 || meta.size > MAXIMUM_CARTRIDGE as real
         || meta.size != meta.size.Floor as real || meta.crc < 0.0 || meta.crc > 4294967295.0
         || meta.crc != meta.crc.Floor as real || meta.command.Unknown? {
        return Failed(InvalidMetadata);
      }
      upload := [];
      uploadSlot := meta.slot;
      uploadSize := meta.size.Floor;
      uploadCrc := meta.crc.Floor;
      uploadCommand := if meta.command.Known? then meta.command.command else Store;
      return Accepted;
    }

    method HandleData(payload: seq<uint8>) returns (reply: Reply)
      modifies this
      ensures (State(), reply) == Data(old(State()), payload)
    {
      if uploadSlot < 0 { return Failed(NoUpload); }
      if |payload| <= 4 || |payload| - 4 > MAXIMUM_CHUNK { return Failed(InvalidChunk); }
      var offset := Le32(payload, 0);
      var data := payload[4..];
      var repeated := offset + |data| == |upload|;
      if !repeated {
        if offset != |upload| || |upload| + |data| > uploadSize { return Failed(OutOfOrder); }
        upload := upload + data;
      }
      return Received(|upload|);
    }

    method HandleEnd(v: Verdict) returns (reply: Reply)
      modifies this
      ensures (State(), reply) == End(old(State()), v)
    {
      if uploadSlot < 0 { return Failed(NoUpload); }
      var ok := |upload| == uploadSize && Crc32(upload) == uploadCrc;
      reply := if ok then Complete else Failed(Mismatch);
      if ok {
        ok := v.storable;
        if ok { slots := slots[uploadSlot := upload]; } else { reply := Failed(Unstorable); }
      }
      if ok && (uploadCommand == Run || uploadCommand == Debug || uploadCommand == Performance) {
        ok := v.selectable;
        if !ok { reply := Failed(Unselectable); }
      }
      uploadSlot := -1;
    }

    /** Called on a timeout or a disconnection, and acts only while an upload is under way. */
    method AbandonUpload()
      modifies this
      ensures State() == Abandon(old(State()))
    {
      if uploadSlot >= 0 {
        upload := [];
        uploadSlot := -1;
      }
    }
  }

  // Any sender.

  datatype Input = BeginIn(meta: Metadata) | DataIn(payload: seq<uint8>) | EndIn(verdict: Verdict) | AbandonIn
  datatype Answer = Answer(server: Server, reply: Option<Reply>)

  function Respond(u: Server, input: Input): Answer {
    match input
    case BeginIn(meta) => var (u', reply) := Begin(u, meta); Answer(u', Some(reply))
    case DataIn(payload) => var (u', reply) := Data(u, payload); Answer(u', Some(reply))
    case EndIn(verdict) => var (u', reply) := End(u, verdict); Answer(u', Some(reply))
    case AbandonIn => Answer(Abandon(u), None)
  }

  function Handle(u: Server, input: Input): Server {
    Respond(u, input).server
  }

  function HandleAll(u: Server, inputs: seq<Input>): Server
    decreases |inputs|
  {
    if inputs == [] then u else HandleAll(Handle(u, inputs[0]), inputs[1..])
  }

  predicate Bounded(u: Server) {
    |u.buffer| <= u.size <= MAXIMUM_CARTRIDGE
  }

  /** Whatever a sender does, the buffer never exceeds the declared size, which never exceeds a slot. */
  lemma {:induction false} BufferStaysBounded(u: Server, inputs: seq<Input>)
    requires Bounded(u)
    ensures Bounded(HandleAll(u, inputs))
    decreases |inputs|
  {
    if inputs == [] {
    } else {
      BufferStaysBounded(Handle(u, inputs[0]), inputs[1..]);
    }
  }

  /** The metadata announces these numbers, whole and in range. */
  predicate Announces(meta: Metadata, slot: nat, size: nat, crc: uint32) {
    && meta.named && meta.slot == slot && meta.size == size as real && meta.crc == crc as real
    && 0 < size <= MAXIMUM_CARTRIDGE && !meta.command.Unknown?
  }

  /** UPLOAD_BEGIN is accepted exactly for whole numbers in range, and then starts an empty upload of just these. */
  lemma BeginExactly(u: Server, meta: Metadata)
    ensures Begin(u, meta).1 == Accepted <==>
      exists slot: nat, size: nat, crc: uint32 :: Announces(meta, slot, size, crc)
    ensures forall slot: nat, size: nat, crc: uint32 | Announces(meta, slot, size, crc) ::
      var u' := Begin(u, meta).0;
      && u'.slot == slot && u'.size == size && u'.crc == crc && u'.buffer == [] && u'.slots == u.slots
      && u'.command == (if meta.command.Known? then meta.command.command else Store)
    ensures Begin(u, meta).1 != Accepted ==> Begin(u, meta) == (u, Failed(InvalidMetadata))
  {
    if ValidMetadata(meta) { assert Announces(meta, meta.slot, meta.size.Floor, meta.crc.Floor); }
    forall slot: nat, size: nat, crc: uint32 | Announces(meta, slot, size, crc)
      ensures ValidMetadata(meta) && meta.size.Floor == size && meta.crc.Floor == crc
    {
      RealFloor(size);
      RealFloor(crc);
    }
  }

  /** A chunk of acceptable size: an offset and some data. */
  predicate ChunkFormed(payload: seq<uint8>) {
    0 < |payload| - 4 <= MAXIMUM_CHUNK
  }

  /** Where the data of a chunk belongs. */
  predicate StandsAt(data: seq<uint8>, offset: nat, buffer: seq<uint8>) {
    offset + |data| <= |buffer| && buffer[offset..offset + |data|] == data
  }

  /**
   * What any UPLOAD_DATA does to any server. The buffer changes only when the chunk starts exactly at its end, and then
   * grows by exactly the chunk's data, to where its offset says. Nothing else changes. A reply with a total means that
   * the buffer ends where the chunk does. It is out of order exactly when it neither ends where the buffer ends nor
   * fits at its end.
   */
  lemma DataExactly(u: Server, payload: seq<uint8>)
    ensures var (u', reply) := Data(u, payload);
      && u' == u.(buffer := u'.buffer)
      && (u'.buffer != u.buffer ==>
            && u.slot >= 0 && ChunkFormed(payload) && Le32(payload, 0) == |u.buffer|
            && u'.buffer == u.buffer + payload[4..] && StandsAt(payload[4..], Le32(payload, 0), u'.buffer))
      && (reply.Received? ==> reply.total == |u'.buffer| == Le32(payload, 0) + |payload| - 4)
      && (reply == Failed(OutOfOrder) <==>
            && u.slot >= 0 && ChunkFormed(payload) && Le32(payload, 0) + |payload| - 4 != |u.buffer|
            && (Le32(payload, 0) != |u.buffer| || |u.buffer| + |payload| - 4 > u.size))
      && (reply == Failed(InvalidChunk) <==> u.slot >= 0 && !ChunkFormed(payload))
      && (reply == Failed(NoUpload) <==> u.slot < 0)
      && (reply.Received? || reply in {Failed(OutOfOrder), Failed(InvalidChunk), Failed(NoUpload)})
  {
    hide Le32;
  }

  /** Neither an accepted UPLOAD_BEGIN nor an abandonment. */
  predicate Continues(input: Input) {
    !input.AbandonIn? && (input.BeginIn? ==> !ValidMetadata(input.meta))
  }

  lemma {:induction false} BufferOnlyGrows(u: Server, inputs: seq<Input>)
    requires forall i | 0 <= i < |inputs| :: Continues(inputs[i])
    ensures u.buffer <= HandleAll(u, inputs).buffer
    decreases |inputs|
  {
    hide Crc32, ValidMetadata, Le32;
    if inputs == [] {
    } else {
      BufferOnlyGrows(Handle(u, inputs[0]), inputs[1..]);
    }
  }

  /**
   * Every chunk that was appended is found in the buffer at its own offset, whatever else arrives, until the next
   * accepted UPLOAD_BEGIN or an abandonment.
   */
  lemma AppendedChunksStay(u: Server, payload: seq<uint8>, inputs: seq<Input>)
    requires Data(u, payload).0.buffer != u.buffer && forall i | 0 <= i < |inputs| :: Continues(inputs[i])
    ensures |payload| > 4 && StandsAt(payload[4..], Le32(payload, 0), HandleAll(u, [DataIn(payload)] + inputs).buffer)
  {
    hide Le32;
    DataExactly(u, payload);
    BufferOnlyGrows(Data(u, payload).0, inputs);
    assert ([DataIn(payload)] + inputs)[1..] == inputs;
    var b, c := Data(u, payload).0.buffer, HandleAll(u, [DataIn(payload)] + inputs).buffer;
    assert b == c[..|b|];
  }

  /** A slot changes only by an UPLOAD_END whose length and checksum match, and then holds the received bytes. */
  lemma StoresExactly(u: Server, input: Input)
    ensures var u' := Handle(u, input);
      if input.EndIn? && input.verdict.storable && u.slot >= 0 && |u.buffer| == u.size && Crc32(u.buffer) == u.crc then
        u'.slots == u.slots[u.slot := u.buffer]
      else u'.slots == u.slots
  {
    hide Crc32;
  }

  /** UPLOAD_END reports success exactly when the file is stored and, if that was asked for, its slot selected. */
  lemma CompleteExactly(u: Server, v: Verdict)
    ensures End(u, v).1 == Complete <==>
      && u.slot >= 0 && |u.buffer| == u.size && Crc32(u.buffer) == u.crc && v.storable
      && (u.command == Store || v.selectable)
  {
    hide Crc32;
  }

  // A sender of one file over a channel that may lose requests and replies, to a server that may give up on it.

  datatype Stage = Beginning | Sending(from: nat, to: nat) | Finishing | Finished

  /** The sender's own knowledge: what it is waiting to have acknowledged. */
  datatype Sender = Sender(file: seq<uint8>, slot: nat, command: Command, stage: Stage)

  predicate WellFormed(s: Sender) {
    && 0 < |s.file| <= MAXIMUM_CARTRIDGE
    && (s.stage.Sending? ==> s.stage.from < s.stage.to <= |s.file| && s.stage.to - s.stage.from <= MAXIMUM_CHUNK)
  }

  function Announcement(s: Sender): Metadata {
    Metadata(true, s.slot, |s.file| as real, Crc32(s.file) as real, Known(s.command))
  }

  function Chunk(s: Sender): seq<uint8>
    requires WellFormed(s) && s.stage.Sending?
  {
    Bytes32(s.stage.from) + s.file[s.stage.from..s.stage.to]
  }

  /**
   * What happens next: the pending request is lost; it is handled, and its reply arrives or not; or the server
   * abandons the upload by itself.
   */
  datatype Event = Lost | Handled(answered: bool, verdict: Verdict) | Abandoned

  function Request(s: Sender, v: Verdict): Input
    requires WellFormed(s) && !s.stage.Finished?
  {
    match s.stage
    case Beginning => BeginIn(Announcement(s))
    case Sending(_, _) => DataIn(Chunk(s))
    case Finishing => EndIn(v)
  }

  /** A reply moves the sender on when it acknowledges the request; a refusal may make it start over. */
  predicate Advances(s: Sender, reply: Reply, s': Sender) {
    match s.stage
    case Beginning => if reply == Accepted then s'.stage.Sending? && s'.stage.from == 0 else s' == s
    case Sending(_, to) =>
      if reply.Received? then
        if to == |s.file| then s'.stage.Finishing? else s'.stage.Sending? && s'.stage.from == to
      else s' == s || s'.stage.Beginning?
    case Finishing => if reply == Complete then s'.stage.Finished? else s' == s || s'.stage.Beginning?
    case Finished => s' == s
  }

  /** Without a reply the sender goes on waiting, to send the same again, or gives up and starts over. */
  predicate Waits(s: Sender, s': Sender) {
    s' == s || (!s.stage.Finished? && s'.stage.Beginning?)
  }

  predicate Exchange(s: Sender, u: Server, event: Event, s': Sender, u': Server)
    requires WellFormed(s)
  {
    && WellFormed(s') && s' == s.(stage := s'.stage)
    && match event
       case Lost => Waits(s, s') && u' == u
       case Abandoned => Waits(s, s') && u' == Abandon(u)
       case Handled(answered, v) =>
         && !s.stage.Finished?
         && var a := Respond(u, Request(s, v));
            u' == a.server && if answered then Advances(s, a.reply.value, s') else Waits(s, s')
  }

  predicate Announced(s: Sender, u: Server) {
    u.slot == s.slot && u.size == |s.file| && u.crc == Crc32(s.file) && u.command == s.command
  }

  predicate Stored(s: Sender, u: Server) {
    s.slot in u.slots && u.slots[s.slot] == s.file
  }

  /** Where an active upload stands: the server holds the file up to the pending chunk or just past it. */
  predicate Position(s: Sender, u: Server)
    requires WellFormed(s)
  {
    match s.stage
    case Beginning => true
    case Sending(from, to) => u.buffer == s.file[..from] || u.buffer == s.file[..to]
    case Finishing => u.buffer == s.file
    case Finished => false
  }

  /** What holds from the first UPLOAD_BEGIN on, abandonments included. */
  predicate Consistent(s: Sender, u: Server) {
    && WellFormed(s) && u.buffer <= s.file
    && (u.slot >= 0 ==> Announced(s, u) && Position(s, u))
    && (s.stage.Finished? ==> Stored(s, u))
  }

  /** The upload is on its way: what the sender waits for, the server can still give. */
  predicate InTransit(s: Sender, u: Server) {
    Consistent(s, u) && (s.stage.Sending? || s.stage.Finishing? ==> u.slot >= 0)
  }

  lemma RealFloor(n: nat)
    ensures (n as real).Floor == n && Integral(n as real)
  {
  }

  lemma ChunkFields(s: Sender)
    requires WellFormed(s) && s.stage.Sending?
    ensures |Chunk(s)| == 4 + s.stage.to - s.stage.from && Le32(Chunk(s), 0) == s.stage.from
    ensures Chunk(s)[4..] == s.file[s.stage.from..s.stage.to]
  {
    Bytes32RoundTrip(s.stage.from);
    assert Le32(Chunk(s), 0) == Le32(Bytes32(s.stage.from), 0);
  }

  /** The pending chunk, sent for the first time or again, is always acknowledged, and a resend changes nothing. */
  lemma ChunkAcknowledged(s: Sender, u: Server)
    requires InTransit(s, u) && s.stage.Sending?
    ensures Data(u, Chunk(s)).1 == Received(s.stage.to)
    ensures Data(u, Chunk(s)).0 == u.(buffer := s.file[..s.stage.to])
    ensures u.buffer == s.file[..s.stage.to] ==> Data(u, Chunk(s)).0 == u
  {
    hide Crc32;
    ChunkFields(s);
    assert s.file[..s.stage.from] + s.file[s.stage.from..s.stage.to] == s.file[..s.stage.to];
  }

  /** Without an upload under way every chunk and every UPLOAD_END is refused and changes nothing. */
  lemma IdleRefuses(u: Server, payload: seq<uint8>, v: Verdict)
    requires u.slot < 0
    ensures Data(u, payload) == (u, Failed(NoUpload)) && End(u, v) == (u, Failed(NoUpload)) && Abandon(u) == u
  {
  }

  /** An abandonment takes a sender that waits for a chunk's reply out of transit, but not out of consistency. */
  lemma AbandonmentLeavesTransit(s: Sender, u: Server)
    requires InTransit(s, u) && s.stage.Sending?
    ensures !InTransit(s, Abandon(u)) && Consistent(s, Abandon(u))
    ensures Data(Abandon(u), Chunk(s)) == (Abandon(u), Failed(NoUpload))
  {
  }

  lemma BeginAccepted(s: Sender, u: Server)
    requires WellFormed(s)
    ensures Begin(u, Announcement(s)).1 == Accepted
    ensures var u' := Begin(u, Announcement(s)).0;
      Announced(s, u') && u'.buffer == [] && u'.slots == u.slots
  {
    hide Crc32;
    RealFloor(|s.file|);
    RealFloor(Crc32(s.file));
  }

  /** UPLOAD_END in a consistent state stores the file of the sender or nothing at all. */
  lemma EndStoresOnlyTheFile(s: Sender, u: Server, v: Verdict)
    requires Consistent(s, u)
    ensures var u' := End(u, v).0;
      && (u'.slots == u.slots || u'.slots == u.slots[s.slot := s.file])
      && (End(u, v).1 == Complete ==> Stored(s, u')) && u'.slot < 0 && u'.buffer == u.buffer
  {
    hide Crc32;
    if u.slot >= 0 && |u.buffer| == u.size { assert u.buffer == s.file; }
  }

  /**
   * An UPLOAD_BEGIN makes sender and server consistent, whatever the server held before: the file of an earlier
   * upload, or another upload under way.
   */
  lemma BeginMakesConsistent(s: Sender, u: Server, event: Event, s': Sender, u': Server)
    requires WellFormed(s) && Exchange(s, u, event, s', u') && event.Handled? && s.stage.Beginning?
    ensures InTransit(s', u') && u'.slot >= 0 && u'.slots == u.slots
  {
    hide Crc32, Begin;
    BeginAccepted(s, u);
  }

  /**
   * Every event, whatever is lost or abandoned, keeps sender and server consistent and stores the sender's file or
   * nothing. Short of an abandonment or UPLOAD_END itself it also keeps an upload on its way.
   */
  lemma ExchangeKeepsConsistent(s: Sender, u: Server, event: Event, s': Sender, u': Server)
    requires Consistent(s, u) && Exchange(s, u, event, s', u')
    ensures Consistent(s', u') && (u'.slots == u.slots || u'.slots == u.slots[s.slot := s.file])
    ensures InTransit(s, u) && !event.Abandoned? && !(event.Handled? && s.stage.Finishing?) ==>
      InTransit(s', u') && u'.slots == u.slots
  {
    hide Crc32, Begin, Data, End;
    if event.Handled? {
      match s.stage
      case Beginning => BeginMakesConsistent(s, u, event, s', u');
      case Sending(from, to) =>
        if u.slot >= 0 {
          ChunkAcknowledged(s, u);
          if to == |s.file| { assert s.file[..to] == s.file; }
        } else {
          IdleRefuses(u, Chunk(s), event.verdict);
        }
      case Finishing => EndStoresOnlyTheFile(s, u, event.verdict);
    }
  }

  /** A run of events. */
  predicate Uploads(ss: seq<Sender>, us: seq<Server>, events: seq<Event>) {
    && |ss| == |us| == |events| + 1
    && (forall k | 0 <= k < |ss| :: WellFormed(ss[k]))
    && forall k | 0 <= k < |events| :: Exchange(ss[k], us[k], events[k], ss[k + 1], us[k + 1])
  }

  /** An UPLOAD_BEGIN reaches the server at event j. */
  predicate Begins(ss: seq<Sender>, events: seq<Event>, j: nat)
    requires |ss| == |events| + 1 && j < |events|
  {
    events[j].Handled? && ss[j].stage.Beginning?
  }

  /** The server has handled an UPLOAD_BEGIN of this sender before state i. */
  ghost predicate Begun(ss: seq<Sender>, events: seq<Event>, i: nat)
    requires |ss| == |events| + 1 && i <= |events|
  {
    exists j | 0 <= j < i :: Begins(ss, events, j)
  }

  /** A run may start with a sender about to begin, whatever the server holds, or in the middle of an upload. */
  predicate Starts(s: Sender, u: Server) {
    s.stage.Beginning? || Consistent(s, u)
  }

  /**
   * Over any run with any losses and abandonments, on a server that may hold anything: once an UPLOAD_BEGIN has been
   * handled, sender and server are consistent, so the server holds a prefix of the file; before that the sender is
   * still beginning and the slots are untouched. The slots only ever hold what they held or the file, and a sender
   * that was told of success is right.
   */
  lemma {:induction false} ReceivedIsPrefix(ss: seq<Sender>, us: seq<Server>, events: seq<Event>, i: nat)
    requires Uploads(ss, us, events) && i < |ss| && Starts(ss[0], us[0])
    ensures ss[i] == ss[0].(stage := ss[i].stage)
    ensures Begun(ss, events, i) || Consistent(ss[0], us[0]) ==> Consistent(ss[i], us[i]) && us[i].buffer <= ss[0].file
    ensures !Begun(ss, events, i) && !Consistent(ss[0], us[0]) ==> ss[i].stage.Beginning? && us[i].slots == us[0].slots
    ensures us[i].slots == us[0].slots || us[i].slots == us[0].slots[ss[0].slot := ss[0].file]
    ensures ss[i].stage.Finished? ==> Stored(ss[0], us[i])
    decreases i
  {
    hide Crc32, Exchange, Consistent, Begins;
    if i == 0 {
      ConsistentMeans(ss[0], us[0]);
    } else {
      var p := i - 1;
      ReceivedIsPrefix(ss, us, events, p);
      assert Exchange(ss[p], us[p], events[p], ss[p + 1], us[p + 1]);
      assert Begun(ss, events, i) <==> Begun(ss, events, p) || Begins(ss, events, p);
      SameFile(ss[p], us[p], events[p], ss[i], us[i]);
      if Begun(ss, events, p) || Consistent(ss[0], us[0]) {
        ExchangeKeepsConsistent(ss[p], us[p], events[p], ss[i], us[i]);
      } else {
        BeforeBegin(ss[p], us[p], events[p], ss[i], us[i]);
        BeginsAt(ss, events, p);
      }
      ConsistentMeans(ss[i], us[i]);
    }
  }

  lemma BeginsAt(ss: seq<Sender>, events: seq<Event>, j: nat)
    requires |ss| == |events| + 1 && j < |events| && ss[j].stage.Beginning?
    ensures Begins(ss, events, j) <==> events[j].Handled?
  {
  }

  /** One event of a sender about to begin. */
  lemma BeforeBegin(s: Sender, u: Server, event: Event, s': Sender, u': Server)
    requires WellFormed(s) && Exchange(s, u, event, s', u') && s.stage.Beginning?
    ensures u'.slots == u.slots
    ensures if event.Handled? then Consistent(s', u') else s'.stage.Beginning?
  {
    hide Crc32, Begin;
    if event.Handled? { BeginMakesConsistent(s, u, event, s', u'); }
  }

  lemma ConsistentMeans(s: Sender, u: Server)
    ensures Consistent(s, u) ==> u.buffer <= s.file && (s.stage.Finished? ==> Stored(s, u))
  {
  }

  lemma SameFile(s: Sender, u: Server, event: Event, s': Sender, u': Server)
    requires WellFormed(s) && Exchange(s, u, event, s', u')
    ensures s' == s.(stage := s'.stage)
  {
  }

  /** Once the file is stored it stays stored, whatever is lost, resent, abandoned or begun again. */
  lemma {:induction false} StoredStaysStored(ss: seq<Sender>, us: seq<Server>, events: seq<Event>, i: nat, k: nat)
    requires Uploads(ss, us, events) && i <= k < |ss| && Starts(ss[0], us[0]) && Stored(ss[0], us[i])
    ensures Stored(ss[0], us[k])
    decreases k
  {
    hide Crc32, Exchange, Consistent, Begun;
    if k == i {
    } else {
      var p := k - 1;
      StoredStaysStored(ss, us, events, i, p);
      ReceivedIsPrefix(ss, us, events, p);
      assert Exchange(ss[p], us[p], events[p], ss[p + 1], us[p + 1]);
      if Consistent(ss[p], us[p]) { ExchangeKeepsConsistent(ss[p], us[p], events[p], ss[k], us[k]); }
      else { BeforeBegin(ss[p], us[p], events[p], ss[k], us[k]); }
    }
  }

  /** Event j is an abandonment, or an UPLOAD_END that reaches the server. */
  predicate Ends(ss: seq<Sender>, events: seq<Event>, j: nat)
    requires |ss| == |events| + 1 && j < |events|
  {
    events[j].Abandoned? || (events[j].Handled? && ss[j].stage.Finishing?)
  }

  /**
   * From an UPLOAD_BEGIN that reaches the server to an abandonment or UPLOAD_END, every state is in transit: each
   * chunk, first sent or resent, is acknowledged with the sender's own position, and no slot changes.
   */
  lemma {:induction false} TransitLasts(ss: seq<Sender>, us: seq<Server>, events: seq<Event>, j: nat, k: nat)
    requires Uploads(ss, us, events) && j < k < |ss| && Begins(ss, events, j)
    requires forall i | j < i < k :: !Ends(ss, events, i)
    ensures InTransit(ss[k], us[k]) && us[k].slots == us[j].slots
    ensures ss[k].stage.Sending? ==>
      Data(us[k], Chunk(ss[k])) == (us[k].(buffer := ss[k].file[..ss[k].stage.to]), Received(ss[k].stage.to))
    decreases k
  {
    hide Crc32, Exchange, Data, Chunk, Consistent;
    var p := k - 1;
    assert Exchange(ss[p], us[p], events[p], ss[p + 1], us[p + 1]);
    if p == j {
      BeginMakesConsistent(ss[j], us[j], events[j], ss[k], us[k]);
    } else {
      TransitLasts(ss, us, events, j, p);
      assert !Ends(ss, events, p);
      ExchangeKeepsConsistent(ss[p], us[p], events[p], ss[k], us[k]);
    }
    if ss[k].stage.Sending? { ChunkAcknowledged(ss[k], us[k]); }
  }

  /**
   * After an abandonment nothing changes the server until an UPLOAD_BEGIN reaches it: every resend in between is
   * refused, and only that UPLOAD_BEGIN makes the upload active again.
   */
  lemma {:induction false} OnlyBeginRevives(ss: seq<Sender>, us: seq<Server>, events: seq<Event>, i: nat, k: nat)
    requires Uploads(ss, us, events) && i <= k < |ss| && us[i].slot < 0
    requires forall j | i <= j < k :: !Begins(ss, events, j)
    ensures us[k] == us[i]
    ensures k < |events| && events[k].Handled? && !ss[k].stage.Beginning? && !ss[k].stage.Finished? ==>
      Respond(us[k], Request(ss[k], events[k].verdict)) == Answer(us[k], Some(Failed(NoUpload)))
    decreases k
  {
    hide Crc32, Begin;
    if k == i {
    } else {
      var p := k - 1;
      OnlyBeginRevives(ss, us, events, i, p);
      assert !Begins(ss, events, p);
      assert Exchange(ss[p], us[p], events[p], ss[p + 1], us[p + 1]);
    }
  }

  /** When the sender gets to UPLOAD_END in transit the file is stored, whole and unchanged. */
  lemma EndStoresFile(s: Sender, u: Server, v: Verdict)
    requires InTransit(s, u) && s.stage.Finishing? && v.storable
    ensures End(u, v).0 == u.(slot := -1, slots := u.slots[s.slot := s.file])
    ensures End(u, v).1 == Complete <==> s.command == Store || v.selectable
  {
    hide Crc32;
  }

  /** UPLOAD_END is the one message that cannot be resent: the file stays stored, but the reply is a refusal. */
  lemma EndCannotBeResent(s: Sender, u: Server, v: Verdict, again: Verdict)
    requires InTransit(s, u) && s.stage.Finishing? && v.storable
    ensures End(End(u, v).0, again) == (End(u, v).0, Failed(NoUpload)) && Stored(s, End(u, v).0)
  {
    EndStoresFile(s, u, v);
  }
}
