/**
 * The Firehose client over a transport: commands, answers, and the receive helper between them. The
 * helper returns how much was received and does not put it into its caller's buffer.
 */
module Firehose {
  import opened Bytes
  import opened SparseRepair

  const BUFFER_SIZE := 65536
  const MAX_RESPONSE := 1048576
  const ACK: bytes := Ascii("ACK")
  const NAK: bytes := Ascii("NAK")

  // ----- the transport

  datatype Message = Configure | PrintGpt | ReadSectors(e: GptEntry)
    | ProgramSectors(name: string, startSector: int, numSectors: nat) | RawData(data: bytes)

  /** What one receive gives; nothing when it times out. */
  function Piece(incoming: seq<bytes>, max: nat): (p: bytes)
    ensures |p| <= max
  {
    if incoming == [] then [] else if |incoming[0]| <= max then incoming[0] else incoming[0][..max]
  }

  function Behind(incoming: seq<bytes>, max: nat): seq<bytes> {
    if incoming == [] then [] else if |incoming[0]| <= max then incoming[1..] else [incoming[0][max..]] + incoming[1..]
  }

  function Total(incoming: seq<bytes>): nat {
    if incoming == [] then 0 else |incoming[0]| + Total(incoming[1..])
  }

  lemma TotalBehind(incoming: seq<bytes>, max: nat)
    ensures Total(Behind(incoming, max)) + |Piece(incoming, max)| == Total(incoming)
  {
    if incoming != [] && |incoming[0]| > max {
      assert ([incoming[0][max..]] + incoming[1..])[1..] == incoming[1..];
    }
  }

  class Transport {
    var incoming: seq<bytes>
    var sent: seq<Message>

    constructor (incoming: seq<bytes>)
      ensures this.incoming == incoming && sent == []
    {
      this.incoming, sent := incoming, [];
    }

    method SendRaw(m: Message)
      modifies this`sent
      ensures sent == old(sent) + [m]
    {
      sent := sent + [m];
    }

    method ReceiveRaw(maxLength: nat) returns (r: bytes)
      modifies this`incoming
      ensures r == Piece(old(incoming), maxLength) && incoming == Behind(old(incoming), maxLength)
    {
      r := Piece(incoming, maxLength);
      incoming := Behind(incoming, maxLength);
    }
  }

  // ----- what a caller of the helper finds in its buffer

  /** The received bytes if the helper delivers them, and the zeros the buffer was made of if it does not. */
  function Text(delivers: bool, piece: bytes): (t: bytes)
    ensures |t| == |piece|
  {
    if delivers then piece else Zeros(|piece|)
  }

  predicate Contains(s: bytes, w: bytes) {
    exists i :: 0 <= i <= |s| && StandsAt(s, i, w)
  }

  predicate StandsAt(s: bytes, i: nat, w: bytes) {
    i + |w| <= |s| && s[i..i + |w|] == w
  }

  datatype Answer = Answer(data: bytes, left: seq<bytes>)

  /** The receive loop of `SendCommandAsync`: until silence, an ACK or NAK and one more piece, or a megabyte. */
  function Collect(delivers: bool, incoming: seq<bytes>, soFar: bytes): Answer
    decreases Total(incoming)
  {
    var piece, left := Piece(incoming, BUFFER_SIZE), Behind(incoming, BUFFER_SIZE);
    if |soFar| >= MAX_RESPONSE then Answer(soFar, incoming)
    else if piece == [] then Answer(soFar, left)
    else
      var all := soFar + Text(delivers, piece);
      if Contains(all, ACK) || Contains(all, NAK) then
        Answer(all + Text(delivers, Piece(left, BUFFER_SIZE)), Behind(left, BUFFER_SIZE))
      else
        TotalBehind(incoming, BUFFER_SIZE);
        Collect(delivers, left, all)
  }

  // ----- responses

  datatype Fragment = Fragment(ack: bool, partition: Option<GptEntry>)

  predicate Trimmed(b: byte) {
    b in {0, 13, 10, 32}
  }

  function TrimStart(s: bytes): bytes {
    if s != [] && Trimmed(s[0]) then TrimStart(s[1..]) else s
  }

  function TrimEnd(s: bytes): bytes {
    if s != [] && Trimmed(s[|s| - 1]) then TrimEnd(s[..|s| - 1]) else s
  }

  /** `FirehoseResponse.Parse`; `xml` takes the fragments out of a text that is not empty. */
  function Parse(xml: bytes -> seq<Fragment>, raw: bytes): seq<Fragment> {
    var text := TrimEnd(TrimStart(raw));
    if text == [] then [] else xml(text)
  }

  predicate IsAck(r: seq<Fragment>) {
    r != [] && r[|r| - 1].ack
  }

  function Partitions(r: seq<Fragment>): seq<GptEntry> {
    if r == [] then []
    else Partitions(r[..|r| - 1]) + if r[|r| - 1].partition.Some? then [r[|r| - 1].partition.value] else []
  }

  /** The table, if the command is acknowledged. */
  function Table(delivers: bool, xml: bytes -> seq<Fragment>, incoming: seq<bytes>): Option<seq<GptEntry>> {
    var r := Parse(xml, Collect(delivers, incoming, []).data);
    if IsAck(r) then Some(Partitions(r)) else None
  }

  /** What a program command and its data come to: none for an exception, else whether the data was acknowledged. */
  function Exchanged(delivers: bool, incoming: seq<bytes>): Option<bool> {
    var answer := Text(delivers, Piece(incoming, BUFFER_SIZE));
    if answer != [] && !Contains(answer, ACK) then None
    else Some(Contains(Text(delivers, Piece(Behind(incoming, BUFFER_SIZE), BUFFER_SIZE)), ACK))
  }

  // ----- the client

  class FirehoseClient {
    const transport: Transport
    /** Whether the receive helper puts what it received into its caller's buffer; the code's does not. */
    const delivers: bool
    const xml: bytes -> seq<Fragment>

    constructor (transport: Transport, delivers: bool, xml: bytes -> seq<Fragment>)
      ensures this.transport == transport && this.delivers == delivers && this.xml == xml
    {
      this.transport, this.delivers, this.xml := transport, delivers, xml;
    }

    method ReadWithTimeout(buffer: array<byte>) returns (n: nat)
      modifies transport`incoming, buffer
      ensures n == |Piece(old(transport.incoming), buffer.Length)| <= buffer.Length
      ensures transport.incoming == Behind(old(transport.incoming), buffer.Length)
      ensures if delivers then buffer[..n] == Piece(old(transport.incoming), buffer.Length) else buffer[..] == old(buffer[..])
    {
      var result := transport.ReceiveRaw(buffer.Length);
      if delivers {
        forall i | 0 <= i < |result| { buffer[i] := result[i]; }
      }
      return |result|;
    }

    /** One receive into a new buffer. */
    method Receive() returns (text: bytes)
      modifies transport`incoming
      ensures text == Text(delivers, Piece(old(transport.incoming), BUFFER_SIZE))
      ensures transport.incoming == Behind(old(transport.incoming), BUFFER_SIZE)
    {
      var buffer := new byte[BUFFER_SIZE](_ => 0);
      assert buffer[..] == Zeros(BUFFER_SIZE);
      var n := ReadWithTimeout(buffer);
      text := buffer[..n];
      assert !delivers ==> text == buffer[..][..n] == Zeros(n);
    }

    method SendCommand(m: Message) returns (raw: bytes)
      modifies transport
      ensures Answer(raw, transport.incoming) == Collect(delivers, old(transport.incoming), [])
      ensures transport.sent == old(transport.sent) + [m]
    {
      hide Contains;
      transport.SendRaw(m);
      var buffer := new byte[BUFFER_SIZE](_ => 0);
      raw := [];
      while |raw| < MAX_RESPONSE
        invariant !delivers ==> buffer[..] == Zeros(BUFFER_SIZE)
        invariant fresh(buffer) && buffer.Length == BUFFER_SIZE && transport.sent == old(transport.sent) + [m]
        invariant Collect(delivers, transport.incoming, raw) == Collect(delivers, old(transport.incoming), [])
        decreases Total(transport.incoming)
      {
        TotalBehind(transport.incoming, BUFFER_SIZE);
        ghost var before := transport.incoming;
        var read := ReadWithTimeout(buffer);
        if read == 0 { return; }
        assert buffer[..read] == Text(delivers, Piece(before, BUFFER_SIZE)) by { assert buffer[..read] == buffer[..][..read]; }
        raw := raw + buffer[..read];
        if Contains(raw, ACK) || Contains(raw, NAK) {
          ghost var middle := transport.incoming;
          var extra := ReadWithTimeout(buffer);
          assert buffer[..extra] == Text(delivers, Piece(middle, BUFFER_SIZE)) by { assert buffer[..extra] == buffer[..][..extra]; }
          raw := raw + buffer[..extra];
          return;
        }
      }
    }

    /** `ConfigureAsync`; false when it throws. */
    method ConfigureChannel() returns (ok: bool)
      modifies transport
      ensures ok == IsAck(Parse(xml, Collect(delivers, old(transport.incoming), []).data))
    {
      hide Collect;
      var raw := SendCommand(Configure);
      ok := IsAck(Parse(xml, raw));
    }

    method PrintTable() returns (entries: Option<seq<GptEntry>>)
      modifies transport
      ensures entries == Table(delivers, xml, old(transport.incoming))
      ensures transport.incoming == Collect(delivers, old(transport.incoming), []).left
      ensures transport.sent == old(transport.sent) + [PrintGpt]
    {
      hide Collect;
      var raw := SendCommand(PrintGpt);
      var r := Parse(xml, raw);
      if !IsAck(r) { return None; }
      return Some(Partitions(r));
    }

    method GetPartitionInfo(name: string) returns (info: Option<GptEntry>)
      modifies transport
      ensures info == Info(delivers, xml, old(transport.incoming), name)
      ensures transport.incoming == Collect(delivers, old(transport.incoming), []).left
      ensures transport.sent == old(transport.sent) + [PrintGpt]
    {
      hide Collect, Lookup;
      var entries := PrintTable();
      if entries.None? { return None; }
      return Lookup(entries.value, name);
    }

    /** Send a program command and, unless an answer without ACK throws, the data. */
    method Exchange(m: Message, data: bytes) returns (acked: Option<bool>)
      modifies transport
      ensures acked == Exchanged(delivers, old(transport.incoming))
      ensures transport.sent == old(transport.sent) + [m] + if acked.Some? then [RawData(data)] else []
    {
      hide Contains;
      transport.SendRaw(m);
      var answer := Receive();
      if answer != [] && !Contains(answer, ACK) { return None; }
      transport.SendRaw(RawData(data));
      var final := Receive();
      acked := Some(Contains(final, ACK));
    }

    /** Up to a megabyte at a time, until the size is reached or nothing comes. */
    method ReadPartition(name: string) returns (data: Option<bytes>)
      modifies transport
      ensures data == ReadBytes(delivers, xml, old(transport.incoming), name)
    {
      hide Collect, Lookup, Int32;
      var info := GetPartitionInfo(name);
      if info.None? { return None; }
      var raw := SendCommand(ReadSectors(info.value));
      if !IsAck(Parse(xml, raw)) { return None; }
      var expectedBytes := Int32(info.value.sectors * SECTOR);
      if expectedBytes < 0 { return None; }
      ghost var incoming := transport.incoming;
      var all: bytes := [];
      while |all| < expectedBytes
        invariant Gathered(transport.incoming, expectedBytes, all) == Gathered(incoming, expectedBytes, [])
        decreases Total(transport.incoming)
      {
        TotalBehind(transport.incoming, MAX_RESPONSE);
        var rawData := transport.ReceiveRaw(MAX_RESPONSE);
        if rawData == [] { return Some(all); }
        all := all + rawData;
      }
      return Some(all[..expectedBytes]);
    }

    method WritePartitionBlocks(name: string, data: bytes, startSector: int) returns (acked: Option<bool>)
      modifies transport
      ensures acked == Written(delivers, xml, old(transport.incoming), name)
      ensures var e := Info(delivers, xml, old(transport.incoming), name);
              transport.sent == old(transport.sent) + Messages(name, e, startSector, data, acked)
    {
      hide Collect, Lookup, Exchanged;
      var info := GetPartitionInfo(name);
      if info.None? { return None; }
      acked := Exchange(ProgramOf(name, info.value, startSector, data), data);
    }

    method WritePartition(name: string, data: bytes) returns (acked: Option<bool>)
      modifies transport
      ensures acked == Written(delivers, xml, old(transport.incoming), name)
      ensures var e := Info(delivers, xml, old(transport.incoming), name);
              transport.sent == old(transport.sent) + Messages(name, e, 0, data, acked)
    {
      hide Collect, Lookup, Exchanged;
      var info := GetPartitionInfo(name);
      if info.None? { return None; }
      acked := Exchange(ProgramOf(name, info.value, 0, data), data);
    }
  }

  function Info(delivers: bool, xml: bytes -> seq<Fragment>, incoming: seq<bytes>, name: string): Option<GptEntry> {
    var table := Table(delivers, xml, incoming);
    if table.None? then None else Lookup(table.value, name)
  }

  function Gathered(incoming: seq<bytes>, n: nat, soFar: bytes): bytes
    decreases Total(incoming)
  {
    var piece := Piece(incoming, MAX_RESPONSE);
    if |soFar| >= n then soFar[..n]
    else if piece == [] then soFar
    else
      TotalBehind(incoming, MAX_RESPONSE);
      Gathered(Behind(incoming, MAX_RESPONSE), n, soFar + piece)
  }

  /** What `ReadPartitionAsync` gives: less than the size when nothing more comes. */
  function ReadBytes(delivers: bool, xml: bytes -> seq<Fragment>, incoming: seq<bytes>, name: string): Option<bytes> {
    var e, first := Info(delivers, xml, incoming, name), Collect(delivers, incoming, []);
    var second := Collect(delivers, first.left, []);
    if e.None? || !IsAck(Parse(xml, second.data)) || Int32(e.value.sectors * SECTOR) < 0 then None
    else Some(Gathered(second.left, Int32(e.value.sectors * SECTOR), []))
  }

  function ProgramOf(name: string, e: GptEntry, startSector: int, data: bytes): Message {
    ProgramSectors(name, e.start + startSector, (|data| + SECTOR - 1) / SECTOR)
  }

  /** What a write sends: the table command, the program command for a known partition, and the data unless it throws. */
  function Messages(name: string, e: Option<GptEntry>, startSector: int, data: bytes, acked: Option<bool>): seq<Message> {
    [PrintGpt] + (if e.Some? then [ProgramOf(name, e.value, startSector, data)] else [])
    + (if acked.Some? then [RawData(data)] else [])
  }

  /** What `WritePartitionAsync` and `WritePartitionBlocksAsync` give. */
  function Written(delivers: bool, xml: bytes -> seq<Fragment>, incoming: seq<bytes>, name: string): Option<bool> {
    if Info(delivers, xml, incoming, name).None? then None
    else Exchanged(delivers, Collect(delivers, incoming, []).left)
  }

  // ----- with the code's helper

  lemma NulsHave(n: nat, w: bytes)
    requires w != [] && w[0] != 0
    ensures !Contains(Zeros(n), w)
  {
    forall i: nat | i <= n ensures !StandsAt(Zeros(n), i, w) {
      if i + |w| <= n { assert Zeros(n)[i..i + |w|][0] == 0; }
    }
  }

  lemma {:induction false} NulsCollected(incoming: seq<bytes>, n: nat)
    ensures var data := Collect(false, incoming, Zeros(n)).data; data == Zeros(|data|)
    decreases Total(incoming)
  {
    var piece, left := Piece(incoming, BUFFER_SIZE), Behind(incoming, BUFFER_SIZE);
    if n < MAX_RESPONSE && piece != [] {
      var all := Zeros(n) + Text(false, piece);
      assert all == Zeros(n + |piece|);
      NulsHave(n + |piece|, ACK);
      NulsHave(n + |piece|, NAK);
      TotalBehind(incoming, BUFFER_SIZE);
      NulsCollected(left, n + |piece|);
    }
  }

  lemma {:induction false} NulsTrimmed(n: nat)
    ensures TrimStart(Zeros(n)) == []
    decreases n
  {
    if n > 0 {
      assert Zeros(n)[1..] == Zeros(n - 1);
      NulsTrimmed(n - 1);
    }
  }

  /** Whatever a device sends, no command is acknowledged: the channel is never configured and no partition table read. */
  lemma NeverAcknowledged(xml: bytes -> seq<Fragment>, incoming: seq<bytes>)
    ensures !IsAck(Parse(xml, Collect(false, incoming, []).data))
    ensures Table(false, xml, incoming) == None
  {
    assert Zeros(0) == [];
    NulsCollected(incoming, 0);
    NulsTrimmed(|Collect(false, incoming, []).data|);
    hide Collect;
  }

  /** So every read and write by name throws, whatever the device sends. */
  lemma EveryCallThrows(xml: bytes -> seq<Fragment>, incoming: seq<bytes>, name: string)
    ensures Written(false, xml, incoming, name) == None && ReadBytes(false, xml, incoming, name) == None
  {
    hide Collect, Lookup;
    NeverAcknowledged(xml, incoming);
  }

  /**
   * Where a partition table comes from elsewhere: a program command throws exactly when it is answered
   * at all, and the data that follows silence is never seen acknowledged.
   */
  lemma AnsweredThrowsExactly(incoming: seq<bytes>)
    ensures Exchanged(false, incoming) == if Piece(incoming, BUFFER_SIZE) == [] then Some(false) else None
  {
    NulsHave(|Piece(incoming, BUFFER_SIZE)|, ACK);
    NulsHave(|Piece(Behind(incoming, BUFFER_SIZE), BUFFER_SIZE)|, ACK);
    hide Contains;
  }

  /** A device that acknowledges command and data: the code's helper makes the command throw, one that delivers does not. */
  lemma AcknowledgedThrows()
    ensures Exchanged(false, [ACK, ACK]) == None && Exchanged(true, [ACK, ACK]) == Some(true)
  {
    AnsweredThrowsExactly([ACK, ACK]);
    assert |ACK| == 3;
    assert StandsAt(ACK, 0, ACK) by { assert ACK[0..3] == ACK; }
    assert Piece([ACK, ACK], BUFFER_SIZE) == ACK && Behind([ACK, ACK], BUFFER_SIZE) == [ACK];
  }

  /**
   * With a helper that delivers, a write is the one the repair relies on: refused exactly when the command
   * is answered without ACK, and acknowledged exactly when the answer to the data has one.
   */
  lemma DeliveredIsWrite(d: Device, s: State, name: string, startSector: int, data: bytes, answer: bytes, final: bytes)
    requires |answer| <= BUFFER_SIZE && |final| <= BUFFER_SIZE && Lookup(d.gpt, name).Some?
    requires var p := Program((Lookup(d.gpt, name).value.start + startSector) * SECTOR, data);
             && (d.refuses(s.store, p) <==> answer != [] && !Contains(answer, ACK))
             && (d.acks(s.store, p) <==> Contains(final, ACK))
    ensures Exchanged(true, [answer, final]) == Write(d, s, name, startSector, data).acked
  {
    hide Contains, Lookup;
    assert Piece([answer, final], BUFFER_SIZE) == answer && Behind([answer, final], BUFFER_SIZE) == [final];
  }

  // ----- what a client with a helper that delivers collects

  function Joined(pieces: seq<bytes>, n: nat): bytes
    requires n <= |pieces|
  {
    if n == 0 then [] else Joined(pieces, n - 1) + pieces[n - 1]
  }

  /** Receives that are not silence and fit a buffer of that size. */
  predicate Pieces(pieces: seq<bytes>, size: nat) {
    forall i :: 0 <= i < |pieces| ==> 0 < |pieces[i]| <= size
  }

  /** A text says that a command was taken or refused. */
  ghost predicate Says(s: bytes) {
    Contains(s, Ascii("ACK")) || Contains(s, Ascii("NAK"))
  }

  lemma ContainsExactly(s: bytes, w: bytes)
    ensures Contains(s, w) <==> exists a, b :: s == a + w + b
  {
    if Contains(s, w) {
      var i :| 0 <= i <= |s| && StandsAt(s, i, w);
      assert s == s[..i] + w + s[i + |w|..];
    }
    if a, b :| s == a + w + b { assert s[|a|..|a| + |w|] == w && StandsAt(s, |a|, w); }
  }

  lemma OnePieceTaken(pieces: seq<bytes>, j: nat, size: nat)
    requires Pieces(pieces, size) && j < |pieces|
    ensures Piece(pieces[j..], size) == pieces[j] && Behind(pieces[j..], size) == pieces[j + 1..]
  {
    assert pieces[j..][1..] == pieces[j + 1..];
  }

  /** What is longer than the client's buffer of 65536 bytes is received in two. */
  lemma LongPieceCut(delivers: bool, p: bytes, q: bytes, rest: seq<bytes>, soFar: bytes)
    requires |p| == 65536 && q != []
    ensures Collect(delivers, [p + q] + rest, soFar) == Collect(delivers, [p, q] + rest, soFar) || |soFar| >= 0x10_0000
  {
    hide Contains;
    assert Piece([p + q] + rest, 65536) == p == Piece([p, q] + rest, 65536);
    assert Behind([p + q] + rest, 65536) == [q] + rest == Behind([p, q] + rest, 65536);
  }

  /** Nothing before the `j`-th piece ends the loop. */
  ghost predicate Goes(pieces: seq<bytes>, j: nat) {
    j <= |pieces| && forall i: nat :: i < j ==> !Says(Joined(pieces, i)) && |Joined(pieces, i)| < 0x10_0000
  }

  lemma {:induction false} GoesOn(pieces: seq<bytes>, j: nat)
    requires Pieces(pieces, 65536) && Goes(pieces, j) && !Says(Joined(pieces, j))
    ensures Collect(true, pieces, []) == Collect(true, pieces[j..], Joined(pieces, j))
    decreases j
  {
    hide Contains;
    if j == 0 {
      assert pieces[0..] == pieces;
    } else {
      assert !Says(Joined(pieces, j - 1));
      GoesOn(pieces, j - 1);
      OnePieceTaken(pieces, j - 1, 65536);
    }
  }

  /**
   * Main result: as long as neither ACK nor NAK stands in what was collected and it is below a
   * megabyte, the loop goes on. When one does, one more piece is taken; a megabyte or silence ends it.
   */
  lemma CollectsExactly(pieces: seq<bytes>, j: nat)
    requires Pieces(pieces, 65536) && Goes(pieces, j)
    ensures Says(Joined(pieces, j)) ==>
              Collect(true, pieces, []) == if j < |pieces| then Answer(Joined(pieces, j) + pieces[j], pieces[j + 1..])
                                           else Answer(Joined(pieces, j), [])
    ensures !Says(Joined(pieces, j)) && |Joined(pieces, j)| >= 0x10_0000 ==>
              Collect(true, pieces, []) == Answer(Joined(pieces, j), pieces[j..])
    ensures !Says(Joined(pieces, j)) && |Joined(pieces, j)| < 0x10_0000 && j == |pieces| ==>
              Collect(true, pieces, []) == Answer(Joined(pieces, j), [])
  {
    NothingSaid();
    hide Contains, Collect;
    if Says(Joined(pieces, j)) {
      assert Goes(pieces, j - 1) && !Says(Joined(pieces, j - 1));
      GoesOn(pieces, j - 1);
      OnePieceTaken(pieces, j - 1, 65536);
      AnswerTaken(pieces, j);
    } else {
      GoesOn(pieces, j);
      if j == |pieces| { assert pieces[j..] == []; }
      LoopEnds(pieces[j..], Joined(pieces, j));
    }
  }

  lemma NothingSaid()
    ensures !Says([])
  {
  }

  lemma LoopEnds(left: seq<bytes>, soFar: bytes)
    ensures |soFar| >= 0x10_0000 ==> Collect(true, left, soFar) == Answer(soFar, left)
    ensures left == [] ==> Collect(true, left, soFar) == Answer(soFar, [])
  {
  }

  lemma AnswerTaken(pieces: seq<bytes>, j: nat)
    requires Pieces(pieces, 65536) && 0 < j <= |pieces| && Says(Joined(pieces, j)) && |Joined(pieces, j - 1)| < 0x10_0000
    ensures Collect(true, pieces[j - 1..], Joined(pieces, j - 1))
         == if j < |pieces| then Answer(Joined(pieces, j) + pieces[j], pieces[j + 1..]) else Answer(Joined(pieces, j), [])
  {
    hide Contains;
    OnePieceTaken(pieces, j - 1, 65536);
    if j < |pieces| {
      OnePieceTaken(pieces, j, 65536);
    } else {
      assert pieces[j..] == [] && Joined(pieces, j) + [] == Joined(pieces, j);
    }
  }

  // ----- what it takes out of it

  /** The padding of a response: zeros, line ends and blanks. */
  predicate Padding(s: bytes) {
    forall i :: 0 <= i < |s| ==> s[i] == 0 || s[i] == 0x0D || s[i] == 0x0A || s[i] == 0x20
  }

  lemma {:induction false} StartTrimmed(front: bytes, text: bytes)
    requires Padding(front) && (text != [] ==> !Padding([text[0]]))
    ensures TrimStart(front + text) == text
    decreases front
  {
    if front == [] {
      assert front + text == text;
      assert text != [] ==> [text[0]][0] == text[0];
    } else {
      assert (front + text)[1..] == front[1..] + text;
      StartTrimmed(front[1..], text);
    }
  }

  lemma {:induction false} EndTrimmed(text: bytes, back: bytes)
    requires Padding(back) && (text != [] ==> !Padding([text[|text| - 1]]))
    ensures TrimEnd(text + back) == text
    decreases back
  {
    if back == [] {
      assert text + back == text;
      assert text != [] ==> [text[|text| - 1]][0] == text[|text| - 1];
    } else {
      assert (text + back)[..|text + back| - 1] == text + back[..|back| - 1];
      EndTrimmed(text, back[..|back| - 1]);
    }
  }

  /** Padding on both sides of a response does not matter, and padding alone holds no fragment. */
  lemma PaddingDropped(xml: bytes -> seq<Fragment>, front: bytes, text: bytes, back: bytes)
    requires Padding(front) && Padding(back)
    requires text != [] && !Padding([text[0]]) && !Padding([text[|text| - 1]])
    ensures Parse(xml, front + text + back) == xml(text)
    ensures Parse(xml, front) == []
  {
    var inner := text + back;
    assert front + text + back == front + inner;
    assert [inner[0]] == [text[0]];
    StartTrimmed(front, inner);
    EndTrimmed(text, back);
    StartTrimmed(front, []);
    EndTrimmed([], []);
    assert front + [] == front;
  }

  /** The partitions of a table response are those of its fragments, in order; other fragments add none. */
  lemma {:induction false} PartitionsInOrder(a: seq<Fragment>, b: seq<Fragment>, ack: bool, e: GptEntry)
    ensures Partitions(a + b) == Partitions(a) + Partitions(b)
    ensures Partitions([Fragment(ack, Some(e))]) == [e] && Partitions([Fragment(ack, None)]) == []
    decreases b
  {
    if b == [] {
      assert a + b == a;
    } else {
      var init := b[..|b| - 1];
      assert (a + b)[..|a + b| - 1] == a + init;
      PartitionsInOrder(a, init, ack, e);
    }
    assert [Fragment(ack, Some(e))][..0] == [] && [Fragment(ack, None)][..0] == [];
  }

  // ----- whole calls

  /** A response that acknowledges, in one piece. */
  predicate Acknowledges(xml: bytes -> seq<Fragment>, piece: bytes) {
    |piece| <= 65536 && Contains(piece, Ascii("ACK")) && var r := Parse(xml, piece); r != [] && r[|r| - 1].ack
  }

  lemma OneAnswer(piece: bytes, rest: seq<bytes>)
    requires |piece| <= 65536 && Contains(piece, Ascii("ACK"))
    ensures Collect(true, [piece, []] + rest, []) == Answer(piece, rest)
  {
    var all := [piece, []] + rest;
    assert Piece(all, 65536) == piece && Behind(all, 65536) == [[]] + rest;
    assert Piece([[]] + rest, 65536) == [] && Behind([[]] + rest, 65536) == rest;
    assert [] + piece == piece && piece + [] == piece;
    PieceNotEmpty(piece);
    hide Contains;
  }

  lemma PieceNotEmpty(piece: bytes)
    requires Contains(piece, Ascii("ACK"))
    ensures piece != []
  {
  }

  /**
   * Main result: a device that acknowledges the table and is silent until the next command. A write
   * throws for a name that is not in the table and when the command is answered without ACK, and is
   * acknowledged exactly when the answer to the data has one.
   */
  lemma WriteConversation(xml: bytes -> seq<Fragment>, table: bytes, answer: bytes, final: bytes, name: string)
    requires Acknowledges(xml, table) && |answer| <= 65536 && |final| <= 65536
    ensures var e := Lookup(Partitions(Parse(xml, table)), name);
            Written(true, xml, [table, [], answer, final], name)
              == if e.None? || (answer != [] && !Contains(answer, Ascii("ACK"))) then None
                 else Some(Contains(final, Ascii("ACK")))
  {
    OneAnswer(table, [answer, final]);
    assert [table, []] + [answer, final] == [table, [], answer, final];
    assert Piece([answer, final], 65536) == answer && Behind([answer, final], 65536) == [final];
    hide Collect, Contains, Lookup, Partitions, Parse;
  }

  lemma {:induction false} JoinedGrows(pieces: seq<bytes>, i: nat, j: nat)
    requires i <= j <= |pieces|
    ensures |Joined(pieces, i)| <= |Joined(pieces, j)| && Joined(pieces, j)[..|Joined(pieces, i)|] == Joined(pieces, i)
    decreases j
  {
    if i < j { JoinedGrows(pieces, i, j - 1); }
  }

  lemma {:induction false} GatheredFrom(pieces: seq<bytes>, j: nat, n: nat)
    requires Pieces(pieces, 0x10_0000) && j <= |pieces|
    ensures Gathered(pieces[j..], n, Joined(pieces, j))
         == var all := Joined(pieces, |pieces|); if n <= |all| then all[..n] else all
    decreases |pieces| - j
  {
    var all := Joined(pieces, |pieces|);
    JoinedGrows(pieces, j, |pieces|);
    if |Joined(pieces, j)| >= n {
      assert Joined(pieces, j)[..n] == all[..n];
    } else if j == |pieces| {
      assert pieces[j..] == [];
    } else {
      OnePieceTaken(pieces, j, 0x10_0000);
      GatheredFrom(pieces, j + 1, n);
    }
  }

  /** Main result: a read gives the partition's size in bytes of what the device sends after both answers, or all of it if that is less. */
  lemma ReadConversation(xml: bytes -> seq<Fragment>, table: bytes, answer: bytes, pieces: seq<bytes>, name: string)
    requires Acknowledges(xml, table) && Acknowledges(xml, answer) && Pieces(pieces, 0x10_0000)
    requires Lookup(Partitions(Parse(xml, table)), name).Some?
    ensures var n := Int32(Lookup(Partitions(Parse(xml, table)), name).value.sectors * 512);
            var all := Joined(pieces, |pieces|);
            ReadBytes(true, xml, [table, [], answer, []] + pieces, name)
              == if n < 0 then None else Some(if n <= |all| then all[..n] else all)
  {
    hide Collect, Contains, Lookup, Partitions, Parse, Gathered, Int32;
    TwoAnswers(table, answer, pieces);
    var n := Int32(Lookup(Partitions(Parse(xml, table)), name).value.sectors * 512);
    if n >= 0 {
      GatheredFrom(pieces, 0, n);
      assert pieces[0..] == pieces;
    }
  }

  lemma TwoAnswers(table: bytes, answer: bytes, pieces: seq<bytes>)
    requires |table| <= 65536 && Contains(table, Ascii("ACK")) && |answer| <= 65536 && Contains(answer, Ascii("ACK"))
    ensures var first := Collect(true, [table, [], answer, []] + pieces, []);
            first.data == table && Collect(true, first.left, []) == Answer(answer, pieces)
  {
    hide Contains;
    OneAnswer(answer, pieces);
    OneAnswer(table, [answer, []] + pieces);
    assert [table, []] + ([answer, []] + pieces) == [table, [], answer, []] + pieces;
  }

  /** The program command counts whole sectors and starts at the partition's; the data follows unless the command throws. */
  lemma CommandsSent(name: string, e: GptEntry, startSector: int, data: bytes, sectors: nat)
    requires 512 * sectors - 512 < |data| <= 512 * sectors
    ensures ProgramOf(name, e, startSector, data) == ProgramSectors(name, e.start + startSector, sectors)
    ensures Messages(name, None, startSector, data, None) == [PrintGpt]
    ensures Messages(name, Some(e), startSector, data, None) == [PrintGpt, ProgramSectors(name, e.start + startSector, sectors)]
    ensures forall b :: Messages(name, Some(e), startSector, data, Some(b))
                     == [PrintGpt, ProgramSectors(name, e.start + startSector, sectors), RawData(data)]
  {
  }
}
