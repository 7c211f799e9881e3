/**
 * The Sahara session that loads a programmer into a device: the host's state machine, the upload that
 * answers the device's read requests, and the handshake of `InitializeAsync` around them. What a
 * device sends is a list of packets; a session that needs more than there are fails like a timeout.
 */
module Sahara {
  import opened Bytes

  datatype SaharaState =
    | Disconnected | HelloReceived | HelloSent | ImageUploading | ImageUploadComplete
    | CommandMode | MemoryDebugMode | Done | Error

  datatype Packet = Packet(command: u32, payload: bytes)

  const HELLO_REQ: u32 := 0
  const HELLO_RSP: u32 := 1
  const READ_DATA: u32 := 2
  const END_OF_IMAGE_TRANSFER: u32 := 3

  predicate IsValidTransition(from: SaharaState, to: SaharaState) {
    match (from, to)
    case (Disconnected, HelloReceived) => true
    case (HelloReceived, HelloSent) => true
    case (HelloSent, ImageUploading) => true
    case (ImageUploading, ImageUploading) => true
    case (ImageUploading, ImageUploadComplete) => true
    case (ImageUploadComplete, CommandMode) => true
    case (HelloSent, MemoryDebugMode) => true
    case (ImageUploadComplete, MemoryDebugMode) => true
    case (CommandMode, Done) => true
    case (MemoryDebugMode, Done) => true
    case (ImageUploadComplete, Done) => true
    case (_, Error) => true
    case (Error, Disconnected) => true
    case _ => false
  }

  // ----- chip information

  datatype ChipInfo = ChipInfo(version: u32, minVersion: u32, maxPacketSize: u32, mode: u32,
                               msmId: u32, pkHash: bytes, serial: Option<bytes>)

  /** The bytes up to the first zero, if there is one. */
  function Terminated(s: bytes): Option<bytes> {
    if s == [] then None
    else if s[0] == 0 then Some([])
    else
      var more := Terminated(s[1..]);
      if more.None? then None else Some([s[0]] + more.value)
  }

  /** Four words, which a shorter request throws for, then as far as they are there a chip id, a key hash and a serial number. */
  function FromHelloRequest(p: Packet): Option<ChipInfo> {
    if p.command != HELLO_REQ || |p.payload| < 16 then None
    else
      var msmId := if |p.payload| >= 20 then ReadLE32(p.payload, 16) else 0;
      var hashAt := if |p.payload| >= 20 then 20 else 16;
      var pkHash := if |p.payload| >= hashAt + 8 then p.payload[hashAt..hashAt + 8] else [];
      var serialAt := hashAt + |pkHash|;
      Some(ChipInfo(ReadLE32(p.payload, 0), ReadLE32(p.payload, 4), ReadLE32(p.payload, 8), ReadLE32(p.payload, 12),
                    msmId, pkHash, Terminated(p.payload[serialAt..])))
  }

  function BuildHelloResponse(c: ChipInfo): (b: bytes)
    ensures |b| == 48
  {
    LE32(2) + LE32(c.minVersion) + LE32(c.maxPacketSize) + LE32(0) + Zeros(32)
  }

  // ----- the state machine

  /** The machine's fields, and every state it has been in, the present one last. */
  datatype Machine = Machine(history: seq<SaharaState>, chipInfo: Option<ChipInfo>, lastError: u32) {
    predicate Valid() {
      history != []
    }

    function State(): SaharaState
      requires Valid()
    {
      history[|history| - 1]
    }
  }

  const START := Machine([Disconnected], None, 0)

  datatype Event = TransitionTo(to: SaharaState) | SetChipInfo(info: ChipInfo) | SetError(error: u32)

  /** Whether the call returns, and the machine after it; a refused transition throws. */
  function Apply(m: Machine, e: Event): (r: (bool, Machine))
    requires m.Valid()
    ensures r.1.Valid()
  {
    match e
    case TransitionTo(to) =>
      if IsValidTransition(m.State(), to) then (true, m.(history := m.history + [to])) else (false, m)
    case SetChipInfo(info) =>
      var known := m.(chipInfo := Some(info));
      if IsValidTransition(m.State(), HelloReceived) then (true, known.(history := m.history + [HelloReceived])) else (false, known)
    case SetError(error) =>
      (true, m.(history := m.history + [Error], lastError := error))
  }

  /** Any calls, one after the other, whether or not some throw. */
  function After(m: Machine, events: seq<Event>): (r: Machine)
    requires m.Valid()
    ensures r.Valid()
  {
    if events == [] then m else Apply(After(m, events[..|events| - 1]), events[|events| - 1]).1
  }

  class SaharaStateMachine {
    var currentState: SaharaState
    var chipInfo: Option<ChipInfo>
    var lastError: u32
    var history: seq<SaharaState>

    ghost predicate Valid()
      reads this
    {
      history != [] && currentState == history[|history| - 1]
    }

    function Now(): (m: Machine)
      reads this
    {
      Machine(history, chipInfo, lastError)
    }

    constructor ()
      ensures Valid() && Now() == START
    {
      currentState, chipInfo, lastError, history := Disconnected, None, 0, [Disconnected];
    }

    method TransitionTo(newState: SaharaState) returns (ok: bool)
      requires Valid()
      modifies this
      ensures Valid() && (ok, Now()) == Apply(old(Now()), Event.TransitionTo(newState))
    {
      if !IsValidTransition(currentState, newState) { return false; }
      currentState, history := newState, history + [newState];
      return true;
    }

    method SetChipInfo(info: ChipInfo) returns (ok: bool)
      requires Valid()
      modifies this
      ensures Valid() && (ok, Now()) == Apply(old(Now()), Event.SetChipInfo(info))
    {
      chipInfo := Some(info);
      ok := TransitionTo(HelloReceived);
    }

    method SetError(error: u32)
      requires Valid()
      modifies this
      ensures Valid() && Now() == Apply(old(Now()), Event.SetError(error)).1
    {
      lastError, currentState, history := error, Error, history + [Error];
    }
  }

  // ----- the upload

  /** What the host does about one packet. */
  datatype Reply = Ended | Exhausted | Chunk(data: bytes) | Throws

  function ReplyTo(loader: bytes, p: Packet): Reply {
    if p.command == END_OF_IMAGE_TRANSFER then Ended
    else if p.command != READ_DATA || |p.payload| < 12 then Throws
    else
      var offset, length := Int32(ReadLE32(p.payload, 4)), Int32(ReadLE32(p.payload, 8));
      var available := Int32(|loader| - offset);
      if available <= 0 then Exhausted
      else
        var n := Min(length, available);
        if n < 0 || offset < 0 || offset + n > |loader| then Throws else Chunk(loader[offset..offset + n])
  }

  const END_OF_TRANSFER := Packet(END_OF_IMAGE_TRANSFER, Zeros(8))

  /** The answers to the packets from `i` on: whether the upload completes, what was sent, how much was received. */
  datatype Upload = Upload(ok: bool, sent: seq<Packet>, next: nat)

  function UploadFrom(loader: bytes, incoming: seq<Packet>, i: nat): (u: Upload)
    requires i <= |incoming|
    ensures i <= u.next <= |incoming|
    decreases |incoming| - i
  {
    if i == |incoming| then Upload(false, [], i)
    else
      match ReplyTo(loader, incoming[i])
      case Ended => Upload(true, [], i + 1)
      case Exhausted => Upload(true, [END_OF_TRANSFER], i + 1)
      case Throws => Upload(false, [], i + 1)
      case Chunk(data) =>
        var u := UploadFrom(loader, incoming, i + 1);
        u.(sent := [Packet(READ_DATA, data)] + u.sent)
  }

  class Transport {
    const incoming: seq<Packet>
    var next: nat
    var sent: seq<Packet>

    ghost predicate Valid()
      reads this
    {
      next <= |incoming|
    }

    constructor (incoming: seq<Packet>)
      ensures Valid() && this.incoming == incoming && next == 0 && sent == []
    {
      this.incoming, next, sent := incoming, 0, [];
    }

    method ReceivePacket() returns (p: Option<Packet>)
      requires Valid()
      modifies this`next
      ensures Valid()
      ensures p == (if old(next) < |incoming| then Some(incoming[old(next)]) else None)
      ensures next == if p.Some? then old(next) + 1 else old(next)
    {
      if next == |incoming| { return None; }
      p := Some(incoming[next]);
      next := next + 1;
    }

    method SendPacket(p: Packet)
      modifies this`sent
      ensures sent == old(sent) + [p]
    {
      sent := sent + [p];
    }
  }

  class SaharaLoaderUploader {
    const transport: Transport
    const stateMachine: SaharaStateMachine

    constructor (transport: Transport, stateMachine: SaharaStateMachine)
      ensures this.transport == transport && this.stateMachine == stateMachine
    {
      this.transport, this.stateMachine := transport, stateMachine;
    }

    /** Answer requests until the device ends the transfer or asks beyond the file. */
    method Upload(loader: bytes) returns (ok: bool)
      requires transport.Valid() && stateMachine.Valid()
      modifies transport, stateMachine
      ensures transport.Valid() && stateMachine.Valid()
      ensures var started := Apply(old(stateMachine.Now()), TransitionTo(ImageUploading));
              var u := UploadFrom(loader, transport.incoming, old(transport.next));
              if !started.0
              then !ok && stateMachine.Now() == old(stateMachine.Now()) && transport.sent == old(transport.sent) && transport.next == old(transport.next)
              else ok == u.ok
                   && transport.sent == old(transport.sent) + u.sent && transport.next == u.next
                   && stateMachine.Now() == if u.ok then Apply(started.1, TransitionTo(ImageUploadComplete)).1 else started.1
    {
      hide Int32, ReadLE32;
      ok := stateMachine.TransitionTo(ImageUploading);
      if !ok { return; }
      ghost var started, all := stateMachine.Now(), UploadFrom(loader, transport.incoming, transport.next);
      ghost var sent := transport.sent;
      while true
        invariant transport.Valid() && stateMachine.Valid() && stateMachine.Now() == started && started.State() == ImageUploading
        invariant var u := UploadFrom(loader, transport.incoming, transport.next);
                  all.ok == u.ok && all.next == u.next && sent + all.sent == transport.sent + u.sent
        decreases |transport.incoming| - transport.next
      {
        var packet := transport.ReceivePacket();
        if packet.None? { return false; }
        if packet.value.command == END_OF_IMAGE_TRANSFER {
          ok := stateMachine.TransitionTo(ImageUploadComplete);
          return;
        }
        if packet.value.command != READ_DATA { return false; }
        var payload := packet.value.payload;
        if |payload| < 12 { return false; }
        var reqOffset, reqLength := Int32(ReadLE32(payload, 4)), Int32(ReadLE32(payload, 8));
        var available := Int32(|loader| - reqOffset);
        if available <= 0 {
          transport.SendPacket(END_OF_TRANSFER);
          ok := stateMachine.TransitionTo(ImageUploadComplete);
          return;
        }
        var sendLen := Min(reqLength, available);
        if sendLen < 0 || reqOffset < 0 || reqOffset + sendLen > |loader| { return false; }
        transport.SendPacket(Packet(READ_DATA, loader[reqOffset..reqOffset + sendLen]));
      }
    }
  }

  // ----- the whole handshake

  /** A session: machine, packets sent, packets received. */
  datatype Session = Session(ok: bool, m: Machine, sent: seq<Packet>, next: nat)

  /** `InitializeAsync` up to command mode; `loader` is absent when its file is. */
  function Initialize(m: Machine, loader: Option<bytes>, incoming: seq<Packet>): Session
    requires m.Valid()
  {
    if incoming == [] then Session(false, m, [], 0)
    else
      var info := FromHelloRequest(incoming[0]);
      if info.None? then Session(false, m, [], 1)
      else
        var greeted := Apply(m, SetChipInfo(info.value));
        if !greeted.0 then Session(false, greeted.1, [], 1)
        else
          var hello := [Packet(HELLO_RSP, BuildHelloResponse(info.value))];
          var answered := Apply(greeted.1, TransitionTo(HelloSent)).1;
          if loader.None? then Session(false, answered, hello, 1)
          else
            var u := UploadFrom(loader.value, incoming, 1);
            var uploading := Apply(answered, TransitionTo(ImageUploading)).1;
            if !u.ok then Session(false, uploading, hello + u.sent, u.next)
            else
              var complete := Apply(uploading, TransitionTo(ImageUploadComplete)).1;
              Session(true, Apply(complete, TransitionTo(CommandMode)).1, hello + u.sent, u.next)
  }

  class FirehoseClient {
    const transport: Transport
    const stateMachine: SaharaStateMachine
    const uploader: SaharaLoaderUploader

    ghost predicate Valid()
      reads this, transport, stateMachine
    {
      transport.Valid() && stateMachine.Valid() && uploader.transport == transport && uploader.stateMachine == stateMachine
    }

    constructor (transport: Transport, stateMachine: SaharaStateMachine)
      requires transport.Valid() && stateMachine.Valid()
      ensures Valid() && this.transport == transport && this.stateMachine == stateMachine
    {
      this.transport, this.stateMachine := transport, stateMachine;
      uploader := new SaharaLoaderUploader(transport, stateMachine);
    }

    /** Hello, chip info, hello response, upload, command mode. */
    method InitializeSession(loader: Option<bytes>) returns (ok: bool)
      requires Valid() && transport.next == 0 && transport.sent == []
      modifies transport, stateMachine
      ensures Valid()
      ensures Session(ok, stateMachine.Now(), transport.sent, transport.next) == Initialize(old(stateMachine.Now()), loader, transport.incoming)
    {
      hide UploadFrom, BuildHelloResponse;
      var helloReq := transport.ReceivePacket();
      if helloReq.None? || helloReq.value.command != HELLO_REQ { return false; }
      var chipInfo := FromHelloRequest(helloReq.value);
      if chipInfo.None? { return false; }
      ok := stateMachine.SetChipInfo(chipInfo.value);
      if !ok { return; }
      transport.SendPacket(Packet(HELLO_RSP, BuildHelloResponse(chipInfo.value)));
      ok := stateMachine.TransitionTo(HelloSent);
      if !ok { return; }
      if loader.None? { return false; }
      ok := uploader.Upload(loader.value);
      if !ok { return; }
      ok := stateMachine.TransitionTo(CommandMode);
    }
  }
}
