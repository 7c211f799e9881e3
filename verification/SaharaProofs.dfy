/** Properties of Sahara sessions: the replies, the reassembled file, and the way to command mode. */
module SaharaProofs {
  import opened Bytes
  import opened Sahara

  // ----- replies

  /** Offset and length as the device wrote them, if the packet has them. */
  function Offset(p: Packet): u32 {
    if |p.payload| >= 12 then ReadLE32(p.payload, 4) else 0
  }

  function Length(p: Packet): u32 {
    if |p.payload| >= 12 then ReadLE32(p.payload, 8) else 0
  }

  predicate Requests(p: Packet) {
    p.command == READ_DATA && |p.payload| >= 12
  }

  function Available(loader: bytes, p: Packet): (n: nat)
    requires Offset(p) <= |loader|
    ensures Offset(p) + n <= |loader|
  {
    Min(Length(p), |loader| - Offset(p))
  }

  /** Words of 2^31 and more count as negative numbers. */
  function Signed(n: u32): int {
    if n < 0x8000_0000 then n else n - U32
  }

  lemma AsInt32(loader: bytes, p: Packet)
    requires |loader| < 0x8000_0000
    ensures Int32(Offset(p)) == Signed(Offset(p)) && Int32(Length(p)) == Signed(Length(p))
    ensures var left := |loader| - Signed(Offset(p)); Int32(left) == if left < 0x8000_0000 then left else left - U32
  {
    hide ReadLE32;
  }

  /**
   * A request is answered with data exactly when it starts inside the file and its length is a
   * positive 32-bit number or zero; the data is then the file's bytes from there, as far as it goes.
   */
  lemma RepliesAreSlices(loader: bytes, p: Packet)
    requires |loader| < 0x8000_0000 && Requests(p)
    ensures ReplyTo(loader, p).Chunk? <==> Offset(p) < |loader| && Length(p) < 0x8000_0000
    ensures ReplyTo(loader, p).Chunk? ==>
              ReplyTo(loader, p).data == loader[Offset(p)..Offset(p) + Available(loader, p)]
  {
    AsInt32(loader, p);
    hide ReadLE32, Int32;
  }

  /** A request inside the file. */
  predicate Answerable(loader: bytes, p: Packet) {
    Requests(p) && Offset(p) < |loader| && Length(p) < 0x8000_0000
  }

  /** A request behind the file's end, as 32-bit differences go. */
  predicate BeyondFile(loader: bytes, p: Packet) {
    Requests(p) && |loader| <= Offset(p) <= |loader| + 0x8000_0000
  }

  /** Which packets get data, which end the upload, and, by exclusion, which make it throw. */
  lemma RepliesExactly(loader: bytes, p: Packet)
    requires |loader| < 0x8000_0000
    ensures ReplyTo(loader, p).Chunk? <==> Answerable(loader, p)
    ensures ReplyTo(loader, p).Exhausted? <==> BeyondFile(loader, p)
    ensures ReplyTo(loader, p).Ended? <==> p.command == END_OF_IMAGE_TRANSFER
  {
    AsInt32(loader, p);
    hide ReadLE32, Int32;
  }

  /** Some packet ends the transfer or asks beyond the file, and all before it are requests inside the file. */
  ghost predicate Completes(loader: bytes, incoming: seq<Packet>, i: nat) {
    exists j :: i <= j < |incoming| && Ends(loader, incoming[j]) && forall k :: i <= k < j ==> Answerable(loader, incoming[k])
  }

  predicate Ends(loader: bytes, p: Packet) {
    p.command == END_OF_IMAGE_TRANSFER || BeyondFile(loader, p)
  }

  /** Which packet lists complete an upload. */
  lemma {:induction false} UploadCompletesExactly(loader: bytes, incoming: seq<Packet>, i: nat)
    requires |loader| < 0x8000_0000 && i <= |incoming|
    ensures UploadFrom(loader, incoming, i).ok <==> Completes(loader, incoming, i)
    decreases |incoming| - i
  {
    hide ReplyTo, Answerable, BeyondFile;
    if i < |incoming| {
      RepliesExactly(loader, incoming[i]);
      if ReplyTo(loader, incoming[i]).Chunk? {
        UploadCompletesExactly(loader, incoming, i + 1);
        OneMoreAnswered(loader, incoming, i);
      }
    }
  }

  lemma OneMoreAnswered(loader: bytes, incoming: seq<Packet>, i: nat)
    requires i < |incoming| && Answerable(loader, incoming[i])
    ensures Completes(loader, incoming, i) <==> Completes(loader, incoming, i + 1)
  {
    AnswerableGoesOn(loader, incoming[i]);
    hide Answerable, Ends;
    if Completes(loader, incoming, i + 1) {
      var j :| i + 1 <= j < |incoming| && Ends(loader, incoming[j]) && forall k :: i + 1 <= k < j ==> Answerable(loader, incoming[k]);
      assert forall k :: i <= k < j ==> Answerable(loader, incoming[k]);
    }
  }

  lemma AnswerableGoesOn(loader: bytes, p: Packet)
    requires Answerable(loader, p)
    ensures !Ends(loader, p)
  {
  }

  /** Over every run, each packet sent answers the request received at that point; an end packet can only be the last. */
  lemma {:induction false} EveryReply(loader: bytes, incoming: seq<Packet>, i: nat, k: nat)
    requires i <= |incoming| && k < |UploadFrom(loader, incoming, i).sent|
    ensures var u := UploadFrom(loader, incoming, i);
            && i + k < u.next
            && var reply := ReplyTo(loader, incoming[i + k]);
               || (reply.Chunk? && u.sent[k] == Packet(READ_DATA, reply.data))
               || (reply.Exhausted? && u.sent[k] == END_OF_TRANSFER && k == |u.sent| - 1)
    decreases k
  {
    hide ReplyTo;
    var u := UploadFrom(loader, incoming, i);
    if k > 0 {
      EveryReply(loader, incoming, i + 1, k - 1);
      assert u.sent[k] == UploadFrom(loader, incoming, i + 1).sent[k - 1];
    }
  }

  /** A request by its bytes: command 2 and three words, the second the offset, the third the length. */
  lemma RequestAnswered(loader: bytes, image: u32, offset: u32, length: u32, rest: bytes)
    requires |loader| < 0x8000_0000 && offset < |loader| && length < 0x8000_0000
    ensures var p := Packet(2, LE32(image) + LE32(offset) + LE32(length) + rest);
            && ReplyTo(loader, p) == Chunk(loader[offset..Min(offset + length, |loader|)])
            && UploadFrom(loader, [p], 0).sent == [Packet(2, loader[offset..Min(offset + length, |loader|)])]
  {
    hide LE32, ReadLE32, ReplyTo, Holds;
    var p := Packet(2, LE32(image) + LE32(offset) + LE32(length) + rest);
    HoldsMiddle(LE32(image), LE32(offset), LE32(length) + rest);
    HoldsMiddle(LE32(image) + LE32(offset), LE32(length), rest);
    assert p.payload == LE32(image) + LE32(offset) + (LE32(length) + rest);
    WordHeld(p.payload, 4, offset);
    WordHeld(p.payload, 8, length);
    RepliesAreSlices(loader, p);
    assert UploadFrom(loader, [p], 1) == Upload(false, [], 1);
  }

  /** The end of a transfer is command 3; the host's own has eight zero bytes. */
  lemma EndByItsBytes(loader: bytes, payload: bytes)
    ensures ReplyTo(loader, Packet(3, payload)) == Ended && END_OF_TRANSFER == Packet(3, [0, 0, 0, 0, 0, 0, 0, 0])
  {
  }

  /** The first packet from `i` on that is not a request inside the file; the end of the list when all are. */
  function Stop(loader: bytes, incoming: seq<Packet>, i: nat): (j: nat)
    requires i <= |incoming|
    ensures i <= j <= |incoming| && forall k :: i <= k < j ==> Answerable(loader, incoming[k])
    ensures j < |incoming| ==> !Answerable(loader, incoming[j])
    decreases |incoming| - i
  {
    if i < |incoming| && Answerable(loader, incoming[i]) then Stop(loader, incoming, i + 1) else i
  }

  /** An upload reads up to that packet and it, answers all before it, and itself when it asks beyond the file. */
  lemma {:induction false} UploadStops(loader: bytes, incoming: seq<Packet>, i: nat)
    requires |loader| < 0x8000_0000 && i <= |incoming|
    ensures var j, u := Stop(loader, incoming, i), UploadFrom(loader, incoming, i);
            && u.next == Min(j + 1, |incoming|)
            && (u.ok <==> j < |incoming| && Ends(loader, incoming[j]))
            && |u.sent| == j - i + if j < |incoming| && BeyondFile(loader, incoming[j]) then 1 else 0
    decreases |incoming| - i
  {
    hide ReplyTo, Answerable, BeyondFile;
    if i < |incoming| {
      RepliesExactly(loader, incoming[i]);
      if Answerable(loader, incoming[i]) {
        UploadStops(loader, incoming, i + 1);
      } else {
        NotBoth(loader, incoming[i]);
      }
    }
  }

  lemma NotBoth(loader: bytes, p: Packet)
    ensures !(p.command == END_OF_IMAGE_TRANSFER && BeyondFile(loader, p))
  {
  }

  // ----- a file asked for piece by piece

  /** The first `n` packets from `i` on ask for consecutive pieces, starting at `at`, each inside the file. */
  predicate Contiguous(loader: bytes, incoming: seq<Packet>, i: nat, n: nat, at: nat)
    decreases n
  {
    n == 0 || (
      && i < |incoming| && Requests(incoming[i])
      && Offset(incoming[i]) == at < |loader| && Length(incoming[i]) < 0x8000_0000 && at + Length(incoming[i]) <= |loader|
      && Contiguous(loader, incoming, i + 1, n - 1, at + Length(incoming[i])))
  }

  /** How many bytes `n` packets from `i` on ask for. */
  function Asked(incoming: seq<Packet>, i: nat, n: nat): (r: nat)
    requires i + n <= |incoming|
    decreases n
  {
    if n == 0 then 0 else (if Requests(incoming[i]) then Length(incoming[i]) else 0) + Asked(incoming, i + 1, n - 1)
  }

  function Joined(packets: seq<Packet>): bytes {
    if packets == [] then [] else packets[0].payload + Joined(packets[1..])
  }

  /**
   * Main result: a device that asks for consecutive pieces and then ends the transfer has received
   * exactly the bytes it asked for, in order; when the pieces cover the file, that is the file.
   */
  lemma {:induction false} FileReassembled(loader: bytes, incoming: seq<Packet>, i: nat, n: nat, at: nat)
    requires |loader| < 0x8000_0000 && at <= |loader| && Contiguous(loader, incoming, i, n, at)
    requires i + n < |incoming| && incoming[i + n].command == END_OF_IMAGE_TRANSFER
    ensures at + Asked(incoming, i, n) <= |loader|
    ensures var u := UploadFrom(loader, incoming, i);
            u.ok && u.next == i + n + 1 && |u.sent| == n && Joined(u.sent) == loader[at..at + Asked(incoming, i, n)]
    decreases n
  {
    hide Offset, Length, Requests, ReplyTo;
    if n == 0 {
      EndEnds(loader, incoming[i]);
    } else {
      var p := incoming[i];
      ReplyToPiece(loader, p);
      FileReassembled(loader, incoming, i + 1, n - 1, at + Length(p));
      JoinedSnoc(loader[at..at + Length(p)], UploadFrom(loader, incoming, i + 1).sent);
      assert loader[at..at + Length(p)] + loader[at + Length(p)..at + Asked(incoming, i, n)] == loader[at..at + Asked(incoming, i, n)];
    }
  }

  lemma EndEnds(loader: bytes, p: Packet)
    requires p.command == END_OF_IMAGE_TRANSFER
    ensures ReplyTo(loader, p) == Ended
  {
    hide ReadLE32;
  }

  lemma JoinedSnoc(data: bytes, sent: seq<Packet>)
    ensures Joined([Packet(READ_DATA, data)] + sent) == data + Joined(sent)
  {
    assert ([Packet(READ_DATA, data)] + sent)[1..] == sent;
  }

  lemma ReplyToPiece(loader: bytes, p: Packet)
    requires |loader| < 0x8000_0000 && Requests(p) && Offset(p) < |loader| && Length(p) < 0x8000_0000 && Offset(p) + Length(p) <= |loader|
    ensures ReplyTo(loader, p) == Chunk(loader[Offset(p)..Offset(p) + Length(p)])
  {
    hide ReplyTo;
    RepliesAreSlices(loader, p);
  }

  /** Pieces that cover the file: the whole file, from the first packet after the hello on. */
  lemma WholeFileSent(loader: bytes, incoming: seq<Packet>, n: nat)
    requires |loader| < 0x8000_0000 && 1 + n < |incoming| && incoming[1 + n].command == END_OF_IMAGE_TRANSFER
    requires Contiguous(loader, incoming, 1, n, 0)
    requires Asked(incoming, 1, n) == |loader|
    ensures UploadFrom(loader, incoming, 1).ok && Joined(UploadFrom(loader, incoming, 1).sent) == loader
  {
    hide Contiguous, Requests, Asked, UploadFrom;
    FileReassembled(loader, incoming, 1, n, 0);
    assert loader[0..|loader|] == loader;
  }

  // ----- the states of any run

  function Rank(s: SaharaState): nat {
    match s
    case Disconnected => 0 case HelloReceived => 1 case HelloSent => 2 case ImageUploading => 3
    case ImageUploadComplete => 4 case CommandMode => 5 case MemoryDebugMode => 5 case Done => 6 case Error => 7
  }

  /** A step of a run: an allowed transition, or an error. */
  predicate Step(from: SaharaState, to: SaharaState) {
    to == Error || IsValidTransition(from, to)
  }

  ghost predicate Stepwise(h: seq<SaharaState>) {
    forall i :: 0 < i < |h| ==> Step(h[i - 1], h[i])
  }

  /** Whatever is called in whatever order, the states visited follow allowed steps from Disconnected. */
  lemma {:induction false} EveryRunStepwise(events: seq<Event>)
    ensures var m := After(START, events); m.history[0] == Disconnected && Stepwise(m.history)
    decreases events
  {
    hide IsValidTransition;
    if events != [] {
      var init, last := events[..|events| - 1], events[|events| - 1];
      EveryRunStepwise(init);
      var before, after := After(START, init), Apply(After(START, init), last).1;
      assert after.history == before.history || exists to :: after.history == before.history + [to] && Step(before.State(), to);
      if after.history != before.history {
        forall i | 0 < i < |after.history| ensures Step(after.history[i - 1], after.history[i]) {
          if i < |before.history| { assert after.history[i] == before.history[i]; }
        }
      }
    }
  }

  /** The transitions without an error, and the way back from one. */
  const ALLOWED: set<(SaharaState, SaharaState)> :=
    {(Disconnected, HelloReceived), (HelloReceived, HelloSent), (HelloSent, ImageUploading), (HelloSent, MemoryDebugMode),
     (ImageUploading, ImageUploading), (ImageUploading, ImageUploadComplete), (ImageUploadComplete, CommandMode),
     (ImageUploadComplete, MemoryDebugMode), (ImageUploadComplete, Done), (CommandMode, Done), (MemoryDebugMode, Done),
     (Error, Disconnected)}

  /** Each call, exactly: when it is refused, what it changes, and that chip information is set either way. */
  lemma CallsExactly(m: Machine, to: SaharaState, info: ChipInfo, error: u32)
    requires m.Valid()
    ensures var allowed := to == Error || (m.State(), to) in ALLOWED;
            Apply(m, TransitionTo(to)) == (allowed, if allowed then m.(history := m.history + [to]) else m)
    ensures var known := m.(chipInfo := Some(info));
            Apply(m, SetChipInfo(info)) == if m.State() == Disconnected then (true, known.(history := m.history + [HelloReceived]))
                                           else (false, known)
    ensures Apply(m, SetError(error)) == (true, m.(history := m.history + [Error], lastError := error))
  {
  }

  /** Calls run one after the other. */
  lemma {:induction false} CallsInOrder(m: Machine, first: seq<Event>, last: Event)
    requires m.Valid()
    ensures After(m, []) == m && After(m, first + [last]) == Apply(After(m, first), last).1
  {
    assert (first + [last])[..|first|] == first;
  }

  /** Main result, the other way round: every path of allowed steps and errors from Disconnected is some run's. */
  lemma {:induction false} EveryPathIsRun(h: seq<SaharaState>) returns (events: seq<Event>)
    requires h != [] && h[0] == Disconnected && Stepwise(h)
    ensures After(START, events).history == h
    decreases h
  {
    hide IsValidTransition;
    if |h| == 1 {
      events := [];
    } else {
      var init, to := h[..|h| - 1], h[|h| - 1];
      forall i | 0 < i < |init| ensures Step(init[i - 1], init[i]) { assert Step(h[i - 1], h[i]); }
      events := EveryPathIsRun(init);
      assert Step(h[|h| - 2], h[|h| - 1]);
      assert init + [to] == h;
      var last := if to == Error then SetError(0) else TransitionTo(to);
      CallsInOrder(START, events, last);
      events := events + [last];
    }
  }

  /** The error kept is the last one set, 0 before any. */
  lemma {:induction false} LastErrorKept(events: seq<Event>)
    ensures After(START, events).lastError == LastError(events)
    decreases events
  {
    if events != [] { LastErrorKept(events[..|events| - 1]); }
  }

  function LastError(events: seq<Event>): u32 {
    if events == [] then 0
    else if events[|events| - 1].SetError? then events[|events| - 1].error
    else LastError(events[..|events| - 1])
  }

  /** Without an error, every step climbs, except that an upload may go on. */
  lemma {:induction false} ErrorFreeRunsClimb(h: seq<SaharaState>, i: nat, j: nat)
    requires Stepwise(h) && Error !in h && i < j < |h|
    ensures Rank(h[i]) < Rank(h[j]) || (forall k :: i <= k <= j ==> h[k] == ImageUploading)
    decreases j - i
  {
    assert Step(h[i], h[i + 1]);
    if i + 1 < j {
      ErrorFreeRunsClimb(h, i + 1, j);
    }
  }

  /** `n` times the same state. */
  function Again(s: SaharaState, n: nat): (r: seq<SaharaState>)
    ensures |r| == n
  {
    seq(n, _ => s)
  }

  const GREETED: seq<SaharaState> := [Disconnected, HelloReceived, HelloSent]

  ghost predicate EndsIn(h: seq<SaharaState>, tail: seq<SaharaState>) {
    |tail| <= |h| && h[|h| - |tail|..] == tail
  }

  lemma EndsInSnoc(h: seq<SaharaState>, tail: seq<SaharaState>, s: SaharaState)
    requires h != [] && h[|h| - 1] == s && EndsIn(h[..|h| - 1], tail)
    ensures EndsIn(h, tail + [s])
  {
    var init := h[..|h| - 1];
    assert h[|h| - |tail| - 1..] == init[|init| - |tail|..] + [s];
  }

  lemma Predecessor(h: seq<SaharaState>)
    requires Stepwise(h) && h != [] && h[0] == Disconnected && h[|h| - 1] !in {Disconnected, Error}
    ensures |h| >= 2 && IsValidTransition(h[|h| - 2], h[|h| - 1]) && Stepwise(h[..|h| - 1]) && h[..|h| - 1][0] == Disconnected
  {
    hide IsValidTransition;
    assert Step(h[|h| - 2], h[|h| - 1]);
    var init := h[..|h| - 1];
    forall i | 0 < i < |init| ensures Step(init[i - 1], init[i]) { assert Step(h[i - 1], h[i]); }
  }

  lemma GreetingEarned(h: seq<SaharaState>)
    requires Stepwise(h) && h != [] && h[0] == Disconnected && h[|h| - 1] == HelloSent
    ensures EndsIn(h, GREETED)
  {
    hide Stepwise;
    Predecessor(h);
    var h1 := h[..|h| - 1];
    Predecessor(h1);
    var h0 := h1[..|h1| - 1];
    assert h[|h| - 3..] == GREETED;
  }

  /** An upload in progress was greeted first, whatever happened before that. */
  lemma {:induction false} UploadEarned(h: seq<SaharaState>) returns (n: nat)
    requires Stepwise(h) && h != [] && h[0] == Disconnected && h[|h| - 1] == ImageUploading
    ensures n > 0 && EndsIn(h, GREETED + Again(ImageUploading, n))
    decreases |h|
  {
    hide Stepwise, EndsIn;
    Predecessor(h);
    var init := h[..|h| - 1];
    if init[|init| - 1] == ImageUploading {
      n := UploadEarned(init);
      EndsInSnoc(h, GREETED + Again(ImageUploading, n), ImageUploading);
      assert GREETED + Again(ImageUploading, n) + [ImageUploading] == GREETED + Again(ImageUploading, n + 1);
      n := n + 1;
    } else {
      GreetingEarned(init);
      EndsInSnoc(h, GREETED, ImageUploading);
      assert [ImageUploading] == Again(ImageUploading, 1);
      n := 1;
    }
  }

  /**
   * Main result over every run of the state machine, errors and refused calls included: it is in
   * command mode only right after Disconnected, the greeting, an upload and its completion.
   */
  lemma CommandModeEarned(events: seq<Event>) returns (n: nat)
    requires After(START, events).State() == CommandMode
    ensures n > 0 && EndsIn(After(START, events).history, GREETED + Again(ImageUploading, n) + [ImageUploadComplete] + [CommandMode])
  {
    hide Stepwise, EndsIn;
    var h := After(START, events).history;
    EveryRunStepwise(events);
    Predecessor(h);
    var complete := h[..|h| - 1];
    Predecessor(complete);
    var uploading := complete[..|complete| - 1];
    n := UploadEarned(uploading);
    EndsInSnoc(complete, GREETED + Again(ImageUploading, n), ImageUploadComplete);
    EndsInSnoc(h, GREETED + Again(ImageUploading, n) + [ImageUploadComplete], CommandMode);
  }

  // ----- a session

  /**
   * A session on a fresh machine reaches command mode exactly when the device greets with a full hello
   * request, the loader file exists, and after requests inside the file alone the device ends the
   * transfer or asks beyond the file; then the chip information is the greeting's, the hello response
   * went out before the first piece of the file, and no other state was visited.
   */
  lemma SessionReachesCommandMode(loader: Option<bytes>, incoming: seq<Packet>)
    requires loader.Some? ==> |loader.value| < 0x8000_0000
    ensures var s := Initialize(START, loader, incoming);
            && (s.ok <==> s.m.State() == CommandMode)
            && (s.ok <==> incoming != [] && FromHelloRequest(incoming[0]).Some? && loader.Some? && Completes(loader.value, incoming, 1))
            && (s.ok ==>
                  && s.m.chipInfo == FromHelloRequest(incoming[0])
                  && s.sent == [Packet(HELLO_RSP, BuildHelloResponse(s.m.chipInfo.value))] + UploadFrom(loader.value, incoming, 1).sent
                  && s.m.history == GREETED + [ImageUploading, ImageUploadComplete, CommandMode])
            && (!s.ok ==> s.m.history <= GREETED + [ImageUploading])
  {
    hide UploadFrom, BuildHelloResponse, ReadLE32, Completes;
    if incoming != [] && FromHelloRequest(incoming[0]).Some? {
      var greeted := Apply(START, SetChipInfo(FromHelloRequest(incoming[0]).value)).1;
      assert greeted.history == [Disconnected, HelloReceived];
      var answered := Apply(greeted, TransitionTo(HelloSent)).1;
      assert answered.history == GREETED;
      var uploading := Apply(answered, TransitionTo(ImageUploading)).1;
      assert uploading.history == GREETED + [ImageUploading];
      var complete := Apply(uploading, TransitionTo(ImageUploadComplete)).1;
      assert complete.history == GREETED + [ImageUploading, ImageUploadComplete];
      if loader.Some? { UploadCompletesExactly(loader.value, incoming, 1); }
    }
  }

  /** A session without a greeting or a loader reads at most one packet, any other as far as its upload. */
  lemma SessionReads(loader: Option<bytes>, incoming: seq<Packet>)
    ensures var s := Initialize(START, loader, incoming);
            if incoming != [] && FromHelloRequest(incoming[0]).Some? && loader.Some?
            then s.next == UploadFrom(loader.value, incoming, 1).next else s.next == Min(1, |incoming|)
  {
    hide FromHelloRequest, UploadFrom, BuildHelloResponse;
  }

  /** On a machine that is not disconnected the greeting is taken in, and nothing is answered. */
  lemma UsedMachineAnswersNothing(m: Machine, loader: Option<bytes>, incoming: seq<Packet>)
    requires m.Valid() && m.State() != Disconnected
    ensures var s := Initialize(m, loader, incoming);
            && !s.ok && s.sent == [] && s.next == Min(1, |incoming|) && s.m.history == m.history
            && s.m.chipInfo == if incoming != [] && FromHelloRequest(incoming[0]).Some? then FromHelloRequest(incoming[0]) else m.chipInfo
  {
    hide FromHelloRequest;
  }

  /** When the first request lies beyond the file, the session reaches command mode without a byte of it sent. */
  lemma NothingUploaded(loader: bytes, incoming: seq<Packet>)
    requires |loader| < 0x8000_0000 && |incoming| >= 2
    requires FromHelloRequest(incoming[0]).Some? && BeyondFile(loader, incoming[1])
    ensures var s := Initialize(START, Some(loader), incoming);
            && s.m.State() == CommandMode
            && s.sent == [Packet(HELLO_RSP, BuildHelloResponse(s.m.chipInfo.value)), END_OF_TRANSFER]
  {
    hide ReplyTo, BeyondFile, FromHelloRequest, BuildHelloResponse, Initialize;
    RepliesExactly(loader, incoming[1]);
    assert Completes(loader, incoming, 1) by { assert Ends(loader, incoming[1]); }
    SessionReachesCommandMode(Some(loader), incoming);
    assert UploadFrom(loader, incoming, 1).sent == [END_OF_TRANSFER];
  }

  // ----- the greeting and its answer

  function Words(a: u32, b: u32, c: u32, d: u32): (r: bytes)
    ensures |r| == 16
  {
    LE32(a) + LE32(b) + LE32(c) + LE32(d)
  }

  lemma WordsRead(a: u32, b: u32, c: u32, d: u32, rest: bytes)
    ensures var s := Words(a, b, c, d) + rest;
            ReadLE32(s, 0) == a && ReadLE32(s, 4) == b && ReadLE32(s, 8) == c && ReadLE32(s, 12) == d
  {
    hide LE32, ReadLE32, Holds;
    var s := Words(a, b, c, d) + rest;
    assert s == [] + LE32(a) + (LE32(b) + LE32(c) + LE32(d) + rest);
    HoldsMiddle([], LE32(a), LE32(b) + LE32(c) + LE32(d) + rest);
    assert s == LE32(a) + LE32(b) + (LE32(c) + LE32(d) + rest);
    HoldsMiddle(LE32(a), LE32(b), LE32(c) + LE32(d) + rest);
    assert s == (LE32(a) + LE32(b)) + LE32(c) + (LE32(d) + rest);
    HoldsMiddle(LE32(a) + LE32(b), LE32(c), LE32(d) + rest);
    HoldsMiddle(LE32(a) + LE32(b) + LE32(c), LE32(d), rest);
    WordHeld(s, 0, a);
    WordHeld(s, 4, b);
    WordHeld(s, 8, c);
    WordHeld(s, 12, d);
  }

  /** A hello request of four words and anything behind them gives those numbers, in that order; any other packet none. */
  lemma GreetingRead(version: u32, minVersion: u32, maxPacketSize: u32, mode: u32, rest: bytes)
    ensures var r := FromHelloRequest(Packet(0, Words(version, minVersion, maxPacketSize, mode) + rest));
            && r.Some? && r.value.version == version && r.value.minVersion == minVersion
            && r.value.maxPacketSize == maxPacketSize && r.value.mode == mode
  {
    hide LE32, ReadLE32, Words, Terminated;
    WordsRead(version, minVersion, maxPacketSize, mode, rest);
  }

  lemma {:induction false} TerminatedAt(text: bytes, rest: bytes)
    requires NulFree(text)
    ensures Terminated(text + [0] + rest) == Some(text)
    decreases text
  {
    var s := text + [0] + rest;
    if text != [] {
      assert s[1..] == text[1..] + [0] + rest;
      TerminatedAt(text[1..], rest);
      assert [text[0]] + text[1..] == text;
    }
  }

  /** A full request also gives chip id, key hash and serial number. */
  lemma FullGreetingRead(words: bytes, msmId: u32, pkHash: bytes, serial: bytes, rest: bytes)
    requires |words| == 16 && |pkHash| == 8 && NulFree(serial)
    ensures var r := FromHelloRequest(Packet(0, words + LE32(msmId) + pkHash + serial + [0] + rest));
            r.Some? && r.value.msmId == msmId && r.value.pkHash == pkHash && r.value.serial == Some(serial)
  {
    hide LE32, ReadLE32, Terminated, NulFree, Holds;
    var s := words + LE32(msmId) + pkHash + serial + [0] + rest;
    assert s == words + LE32(msmId) + (pkHash + serial + [0] + rest);
    HoldsMiddle(words, LE32(msmId), pkHash + serial + [0] + rest);
    WordHeld(s, 16, msmId);
    assert s[20..28] == pkHash && s[28..] == serial + [0] + rest;
    TerminatedAt(serial, rest);
  }

  /** A request that ends before the key hash has none, and one that ends before the chip id has none either. */
  lemma ShortGreetingRead(words: bytes, more: bytes, msmId: u32)
    requires |words| == 16
    ensures |more| < 4 ==> var r := FromHelloRequest(Packet(0, words + more));
                           r.Some? && r.value.msmId == 0 && r.value.pkHash == [] && r.value.serial == Terminated(more)
    ensures |more| < 8 ==> var r := FromHelloRequest(Packet(0, words + LE32(msmId) + more));
                           r.Some? && r.value.msmId == msmId && r.value.pkHash == [] && r.value.serial == Terminated(more)
  {
    hide LE32, ReadLE32, Terminated, Holds;
    assert (words + more)[16..] == more && (words + LE32(msmId) + more)[20..] == more;
    HoldsMiddle(words, LE32(msmId), more);
    WordHeld(words + LE32(msmId) + more, 16, msmId);
  }

  /**
   * Whatever the device sends: the first packet of a session is a greeting of its four words exactly
   * when anything is answered, and then the first packet sent is a response of 48 bytes with the host's
   * version, the greeting's own bytes 4 to 12, and a request for the image.
   */
  lemma ResponseEchoesGreeting(loader: Option<bytes>, incoming: seq<Packet>)
    ensures var s := Initialize(START, loader, incoming);
            && (s.sent != [] <==> incoming != [] && incoming[0].command == 0 && |incoming[0].payload| >= 16)
            && (s.sent != [] ==>
                  && s.sent[0].command == 1 && |s.sent[0].payload| == 48
                  && s.sent[0].payload[4..12] == incoming[0].payload[4..12]
                  && s.sent[0].payload[..4] == LE32(2) && s.sent[0].payload[12..] == Zeros(36))
  {
    hide UploadFrom, ReadLE32, LE32, Terminated;
    if incoming != [] && FromHelloRequest(incoming[0]).Some? {
      var p, c := incoming[0].payload, FromHelloRequest(incoming[0]).value;
      WordsAgain(p, 4);
      WordsAgain(p, 8);
      assert p[4..12] == p[4..8] + p[8..12];
      ZeroWord();
      assert LE32(c.minVersion) == p[4..8] && LE32(c.maxPacketSize) == p[8..12];
      var b := BuildHelloResponse(c);
      assert b[4..12] == LE32(c.minVersion) + LE32(c.maxPacketSize);
      assert b[12..] == Zeros(36);
    }
  }

  lemma ZeroWord()
    ensures LE32(0) == [0, 0, 0, 0] && LE32(0) + Zeros(32) == Zeros(36)
  {
  }

  lemma WordsAgain(s: bytes, at: nat)
    requires at + 4 <= |s|
    ensures LE32(ReadLE32(s, at)) == s[at..at + 4]
  {
    WordOfBytes(s[at], s[at + 1], s[at + 2], s[at + 3]);
    assert s[at..at + 4] == [s[at], s[at + 1], s[at + 2], s[at + 3]];
  }

  lemma WordOfBytes(a: byte, b: byte, c: byte, d: byte)
    ensures LE32(a + 256 * b + 65536 * c + 16777216 * d) == [a, b, c, d]
  {
    var p, q: nat := c + 256 * d, b + 256 * (c + 256 * d);
    var n := a + 256 * q;
    assert n / 256 == q && q / 256 == p && p / 256 == d;
    assert n / 65536 == q / 256 && n / 16777216 == p / 256;
  }

  /** The hello response carries the device's own minimum version and packet size. */
  lemma HelloAnswersGreeting(c: ChipInfo)
    ensures var b := BuildHelloResponse(c);
            ReadLE32(b, 0) == 2 && ReadLE32(b, 4) == c.minVersion && ReadLE32(b, 8) == c.maxPacketSize && ReadLE32(b, 12) == 0
  {
    hide LE32;
    var b := BuildHelloResponse(c);
    ReadLE32OfLE32(2);
    ReadLE32OfLE32(c.minVersion);
    ReadLE32OfLE32(c.maxPacketSize);
    ReadLE32OfLE32(0);
    assert forall i :: 0 <= i < 4 ==> b[i] == LE32(2)[i] && b[4 + i] == LE32(c.minVersion)[i];
    assert forall i :: 0 <= i < 4 ==> b[8 + i] == LE32(c.maxPacketSize)[i] && b[12 + i] == LE32(0)[i];
  }
}
