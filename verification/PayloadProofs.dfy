/** When extraction succeeds, and why sorting the operations does not change the image. */
module PayloadProofs {
  import opened Bytes
  import opened Payload

  // ----- the sort

  /** `a` may stand before `b` in the manifest: their data do not make the reader go back. */
  predicate Compatible(a: Operation, b: Operation) {
    && (a.Key() < b.Key() ==> a.End() <= b.Key())
    && (b.Key() < a.Key() ==> b.End() <= a.Key())
    && (a.Key() == b.Key() ==> a.Length() == 0)
  }

  /** Over every two operations in manifest order. */
  predicate Forward(ops: seq<Operation>) {
    forall i, j :: 0 <= i < j < |ops| ==> Compatible(ops[i], ops[j])
  }

  predicate Ascends(ops: seq<Operation>) {
    forall i, j :: 0 <= i < j < |ops| ==> ops[i].Key() <= ops[j].Key()
  }

  /** Read in this order, no operation starts before the one before it ended. */
  predicate NeverBack(ops: seq<Operation>) {
    forall i :: 0 < i < |ops| ==> ops[i - 1].End() <= ops[i].Key()
  }

  lemma LastIsLargest(s: seq<Operation>)
    requires Ascends(s) && s != []
    ensures var init, last := s[..|s| - 1], s[|s| - 1];
            Ascends(init) && forall a :: a in init ==> a.Key() <= last.Key()
  {
  }

  lemma AscendsSnoc(s: seq<Operation>, last: Operation)
    requires Ascends(s) && forall a :: a in s ==> a.Key() <= last.Key()
    ensures Ascends(s + [last])
  {
  }

  lemma {:induction false} InsertKeeps(x: Operation, s: seq<Operation>)
    requires Ascends(s)
    ensures Ascends(Insert(x, s)) && multiset(Insert(x, s)) == multiset(s) + multiset{x}
    decreases s
  {
    hide Ascends;
    if s == [] {
      AscendsSnoc([], x);
      assert [] + [x] == [x];
    } else {
      var init, last := s[..|s| - 1], s[|s| - 1];
      assert s == init + [last];
      LastIsLargest(s);
      if x.Key() < last.Key() {
        InsertKeeps(x, init);
        SameMembers(Insert(x, init), init, x);
        AscendsSnoc(Insert(x, init), last);
      } else {
        AscendsSnoc(s, x);
      }
    }
  }

  /** Moving an operation in front of ones with larger keys changes no pair's compatibility. */
  lemma {:induction false} InsertForward(x: Operation, s: seq<Operation>)
    requires Ascends(s)
    ensures Forward(Insert(x, s)) <==> Forward(s + [x])
    decreases s
  {
    hide Compatible;
    if s == [] || s[|s| - 1].Key() <= x.Key() {
      assert s == [] ==> s + [x] == [x];
    } else {
      var init, last := s[..|s| - 1], s[|s| - 1];
      assert s == init + [last];
      InsertForward(x, init);
      InsertKeeps(x, init);
      var r := Insert(x, init);
      assert Compatible(x, last) <==> Compatible(last, x) by { Commute(x, last); }
      ForwardSnoc(r, last);
      ForwardSnoc(init + [x], last);
      ForwardSnoc(init + [last], x);
      ForwardSnoc(init, x);
      ForwardSnoc(init, last);
      SameMembers(r, init, x);
    }
  }

  lemma SameMembers(r: seq<Operation>, s: seq<Operation>, x: Operation)
    requires multiset(r) == multiset(s) + multiset{x}
    ensures forall a :: a in r <==> a in s || a == x
  {
    assert forall a :: (a in r <==> a in multiset(r)) && (a in s <==> a in multiset(s));
  }

  lemma Commute(a: Operation, b: Operation)
    requires a.Key() != b.Key()
    ensures Compatible(a, b) <==> Compatible(b, a)
  {
  }

  lemma ForwardSnoc(s: seq<Operation>, x: Operation)
    ensures Forward(s + [x]) <==> Forward(s) && forall a :: a in s ==> Compatible(a, x)
  {
    hide Compatible;
    var t := s + [x];
    assert forall i :: 0 <= i < |s| ==> t[i] == s[i];
    if Forward(t) {
      forall a | a in s ensures Compatible(a, x) {
        var i :| 0 <= i < |s| && s[i] == a;
        assert Compatible(t[i], t[|s|]);
      }
    } else if Forward(s) && forall a :: a in s ==> Compatible(a, x) {
      forall i, j | 0 <= i < j < |t| ensures Compatible(t[i], t[j]) {
        if j == |s| { assert s[i] in s; }
      }
    }
  }

  lemma {:induction false} SortKeeps(ops: seq<Operation>)
    ensures Ascends(SortByOffset(ops)) && multiset(SortByOffset(ops)) == multiset(ops)
    ensures Forward(SortByOffset(ops)) <==> Forward(ops)
    decreases ops
  {
    if ops != [] {
      var init, last := ops[..|ops| - 1], ops[|ops| - 1];
      assert ops == init + [last];
      SortKeeps(init);
      var s := SortByOffset(init);
      InsertKeeps(last, s);
      InsertForward(last, s);
      ForwardSnoc(init, last);
      ForwardSnoc(s, last);
      assert forall a :: (a in init <==> a in multiset(init)) && (a in s <==> a in multiset(s));
    }
  }

  lemma {:induction false} ReachesBack(s: seq<Operation>, i: nat, j: nat)
    requires NeverBack(s) && i < j < |s|
    ensures s[i].End() <= s[j].Key()
    decreases j
  {
    if i < j - 1 { ReachesBack(s, i, j - 1); }
  }

  /** In ascending order, never reading back means exactly that every pair is compatible. */
  lemma NeverBackIsForward(s: seq<Operation>)
    requires Ascends(s)
    ensures NeverBack(s) <==> Forward(s)
  {
    if NeverBack(s) {
      forall i, j | 0 <= i < j < |s| ensures Compatible(s[i], s[j]) { ReachesBack(s, i, j); }
    } else if Forward(s) {
      forall i | 0 < i < |s| ensures s[i - 1].End() <= s[i].Key() { assert Compatible(s[i - 1], s[i]); }
    }
  }

  // ----- success

  /** The bytes of the payload at an operation's offset, as many as its length says; none where it has neither or they are not there. */
  function OwnSlice(op: Operation, blob: bytes): bytes {
    if op.dataOffset.None? || op.dataLength.None? || op.dataOffset.value + op.dataLength.value > |blob| then []
    else blob[op.dataOffset.value..op.dataOffset.value + op.dataLength.value]
  }

  /** An operation that can be carried out on its own. */
  predicate Performable(op: Operation, blob: bytes, d: Decoder) {
    && op.dataLength.Some? && op.dataOffset.Some? && op.dataOffset.value + op.dataLength.value <= |blob|
    && op.dst != [] && op.dst[0].startBlock.Some?
    && op.kind != OTHER
    && (op.kind == ZERO ==> forall i :: 0 <= i < |op.dst| ==> op.dst[i].startBlock.Some? && op.dst[i].numBlocks.Some?)
    && (op.kind in {REPLACE_BZ, REPLACE_XZ} ==> d.decompress(OwnSlice(op, blob)).Some?)
  }

  lemma {:induction false} ZeroSucceeds(dst: seq<Extent>, blockSize: nat)
    ensures ZeroWrites(dst, blockSize).Ok? <==> forall i :: 0 <= i < |dst| ==> dst[i].startBlock.Some? && dst[i].numBlocks.Some?
    decreases dst
  {
    if dst != [] {
      var init := dst[..|dst| - 1];
      ZeroSucceeds(init, blockSize);
      assert forall i :: 0 <= i < |init| ==> init[i] == dst[i];
    }
  }

  lemma StepSucceeds(op: Operation, pos: nat, file: bytes, blob: bytes, blockSize: nat, d: Decoder)
    ensures Step(op, pos, file, blob, blockSize, d).Ok? <==> Performable(op, blob, d) && pos <= op.Key()
  {
    ZeroSucceeds(op.dst, blockSize);
  }

  lemma {:induction false} RunSucceeds(ops: seq<Operation>, blob: bytes, blockSize: nat, d: Decoder)
    ensures Run(ops, blob, blockSize, d).Ok? <==>
              NeverBack(ops) && forall i :: 0 <= i < |ops| ==> Performable(ops[i], blob, d)
    ensures Run(ops, blob, blockSize, d).Ok? ==>
              Run(ops, blob, blockSize, d).value.pos == if ops == [] then 0 else ops[|ops| - 1].End()
    decreases ops
  {
    hide Step, Performable;
    if ops != [] {
      var init, last := ops[..|ops| - 1], ops[|ops| - 1];
      assert forall i :: 0 <= i < |init| ==> init[i] == ops[i];
      RunSucceeds(init, blob, blockSize, d);
      var so := Run(init, blob, blockSize, d);
      if so.Ok? {
        StepSucceeds(last, so.value.pos, so.value.file, blob, blockSize, d);
        StepPosition(last, so.value.pos, so.value.file, blob, blockSize, d);
      } else if NeverBack(ops) {
        assert NeverBack(init);
      }
    }
  }

  lemma StepPosition(op: Operation, pos: nat, file: bytes, blob: bytes, blockSize: nat, d: Decoder)
    ensures var r := Step(op, pos, file, blob, blockSize, d); r.Ok? ==> r.value.pos == op.End()
  {
  }

  /**
   * Main result: extraction succeeds exactly when every operation can be carried out on its own
   * and, pair by pair in manifest order, no data range makes the reader go back.
   */
  lemma ExtractSucceeds(ops: seq<Operation>, blob: bytes, blockSize: nat, d: Decoder)
    ensures Extract(ops, blob, blockSize, d).Ok?
       <==> Forward(ops) && forall op :: op in ops ==> Performable(op, blob, d)
  {
    hide Performable, Forward, Run;
    var s := SortByOffset(ops);
    SortKeeps(ops);
    NeverBackIsForward(s);
    RunSucceeds(s, blob, blockSize, d);
    assert forall op :: (op in s <==> op in multiset(s)) && (op in ops <==> op in multiset(ops));
  }

  // ----- what the manifest means

  /** The data of an operation that carries some, laid over its extents in order. */
  function Spread(data: bytes, dst: seq<Extent>, blockSize: nat): seq<Write> {
    if dst == [] || dst[0].startBlock.None? then []
    else
      var room := if dst[0].numBlocks.Some? then dst[0].numBlocks.value * blockSize else 0;
      var n := if |dst| == 1 then |data| else Min(room, |data|);
      [Write(dst[0].startBlock.value * blockSize, data[..n])] + Spread(data[n..], dst[1..], blockSize)
  }

  /** Whole blocks of zeros at every extent. */
  function ZeroBlocks(dst: seq<Extent>, blockSize: nat): seq<Write> {
    if dst == [] then []
    else
      var e := dst[|dst| - 1];
      ZeroBlocks(dst[..|dst| - 1], blockSize)
      + if e.startBlock.Some? && e.numBlocks.Some?
        then [Write(e.startBlock.value * blockSize, Zeros(e.numBlocks.value * blockSize))] else []
  }

  /** The writes an operation stands for, read straight from its place in the payload. */
  function Meant(op: Operation, blob: bytes, blockSize: nat, d: Decoder): seq<Write> {
    if op.End() > |blob| then []
    else
      var data := OwnSlice(op, blob);
      match op.kind
      case REPLACE => Spread(data, op.dst, blockSize)
      case ZERO => ZeroBlocks(op.dst, blockSize)
      case OTHER => []
      case _ => if d.decompress(data).Some? then Spread(d.decompress(data).value, op.dst, blockSize) else []
  }

  function MeantAll(ops: seq<Operation>, blob: bytes, blockSize: nat, d: Decoder): seq<Write> {
    if ops == [] then []
    else MeantAll(ops[..|ops| - 1], blob, blockSize, d) + Meant(ops[|ops| - 1], blob, blockSize, d)
  }

  /** What a write adds at byte `k`: its byte there, or 1 when only counting. */
  function Adds(w: Write, k: nat, counting: bool): nat {
    if w.at <= k < w.at + |w.data| then if counting then 1 else w.data[k - w.at] else 0
  }

  function Sum(ws: seq<Write>, k: nat, counting: bool): nat {
    if ws == [] then 0 else Sum(ws[..|ws| - 1], k, counting) + Adds(ws[|ws| - 1], k, counting)
  }

  /** No byte of the image is written twice. */
  ghost predicate WrittenOnce(ws: seq<Write>) {
    forall k: nat :: Sum(ws, k, true) <= 1
  }

  lemma {:induction false} SumConcat(a: seq<Write>, b: seq<Write>, k: nat, counting: bool)
    ensures Sum(a + b, k, counting) == Sum(a, k, counting) + Sum(b, k, counting)
    decreases b
  {
    if b == [] {
      assert a + b == a;
    } else {
      var init := b[..|b| - 1];
      assert (a + b)[..|a + b| - 1] == a + init;
      SumConcat(a, init, k, counting);
    }
  }

  lemma {:induction false} WriteAllConcat(file: bytes, a: seq<Write>, b: seq<Write>)
    ensures WriteAll(file, a + b) == WriteAll(WriteAll(file, a), b)
    decreases b
  {
    hide WriteAt;
    if b == [] {
      assert a + b == a;
    } else {
      assert (a + b)[..|a + b| - 1] == a + b[..|b| - 1];
      WriteAllConcat(file, a, b[..|b| - 1]);
    }
  }

  lemma {:induction false} UntouchedIsZero(ws: seq<Write>, k: nat)
    requires Sum(ws, k, true) == 0
    ensures At(WriteAll([], ws), k) == 0 == Sum(ws, k, false)
    decreases ws
  {
    if ws != [] { UntouchedIsZero(ws[..|ws| - 1], k); }
  }

  /** A byte written at most once reads as the sum of what is written there. */
  lemma {:induction false} ReadsAsSum(ws: seq<Write>, k: nat)
    requires Sum(ws, k, true) <= 1
    ensures At(WriteAll([], ws), k) == Sum(ws, k, false)
    decreases ws
  {
    if ws != [] {
      var init, last := ws[..|ws| - 1], ws[|ws| - 1];
      if Adds(last, k, true) == 1 {
        UntouchedIsZero(init, k);
      } else {
        ReadsAsSum(init, k);
      }
    }
  }

  // ----- the code's writes against the meant ones

  function CodeWrites(ops: seq<Operation>, blob: bytes, blockSize: nat, d: Decoder): seq<Write> {
    if ops == [] then []
    else
      var op := ops[|ops| - 1];
      CodeWrites(ops[..|ops| - 1], blob, blockSize, d)
      + if op.End() <= |blob| && WritesOf(op, blob[op.Key()..op.End()], blockSize, d).Ok?
        then WritesOf(op, blob[op.Key()..op.End()], blockSize, d).value else []
  }

  lemma {:induction false} RunWrites(ops: seq<Operation>, blob: bytes, blockSize: nat, d: Decoder)
    requires Run(ops, blob, blockSize, d).Ok?
    ensures Run(ops, blob, blockSize, d).value.file == WriteAll([], CodeWrites(ops, blob, blockSize, d))
    decreases ops
  {
    hide WritesOf, WriteAt;
    if ops != [] {
      var init, op := ops[..|ops| - 1], ops[|ops| - 1];
      RunWrites(init, blob, blockSize, d);
      WriteAllConcat([], CodeWrites(init, blob, blockSize, d), WritesOf(op, blob[op.Key()..op.End()], blockSize, d).value);
    }
  }

  /** The bytes an operation with data puts into the image. */
  function DataOf(op: Operation, blob: bytes, d: Decoder): bytes {
    if op.End() > |blob| then []
    else
      var data := blob[op.Key()..op.End()];
      if op.kind == REPLACE then data else if d.decompress(data).Some? then d.decompress(data).value else []
  }

  function Room(e: Extent, blockSize: nat): nat {
    if e.numBlocks.Some? then e.numBlocks.value * blockSize else 0
  }

  /** As long as there is data left, the next extent starts where the one before it ends. */
  predicate Contiguous(dst: seq<Extent>, left: nat, blockSize: nat) {
    && dst != [] && dst[0].startBlock.Some?
    && (|dst| == 1 || left <= Room(dst[0], blockSize)
        || (dst[1].startBlock.Some? && dst[1].startBlock.value * blockSize == dst[0].startBlock.value * blockSize + Room(dst[0], blockSize)
            && Contiguous(dst[1..], left - Room(dst[0], blockSize), blockSize)))
  }

  /** Destinations are in range, and the extents of an operation with data are contiguous as far as its data goes. */
  predicate Placed(op: Operation, blob: bytes, blockSize: nat, d: Decoder) {
    && (forall i :: 0 <= i < |op.dst| && op.dst[i].startBlock.Some? ==> op.dst[i].startBlock.value * blockSize < U64)
    && (op.kind != ZERO ==> Contiguous(op.dst, |DataOf(op, blob, d)|, blockSize))
  }

  lemma {:induction false} ZerosAddNothing(dst: seq<Extent>, blockSize: nat, k: nat)
    requires blockSize > 0 && ZeroWrites(dst, blockSize).Ok?
    requires forall i :: 0 <= i < |dst| && dst[i].startBlock.Some? ==> dst[i].startBlock.value * blockSize < U64
    ensures var code, meant := ZeroWrites(dst, blockSize).value, ZeroBlocks(dst, blockSize);
            && Sum(code, k, false) == 0 == Sum(meant, k, false)
            && Sum(code, k, true) <= Sum(meant, k, true)
    decreases dst
  {
    hide Sum, Adds;
    NothingSums(k);
    if dst != [] {
      var init, e := dst[..|dst| - 1], dst[|dst| - 1];
      assert forall i :: 0 <= i < |init| ==> init[i] == dst[i];
      ZerosAddNothing(init, blockSize, k);
      var at, n := e.startBlock.value * blockSize, e.numBlocks.value;
      AtLeastOneBlock(n, blockSize);
      ShorterZeros(at, n, n * blockSize, k);
      SumSnoc(ZeroWrites(init, blockSize).value, Write(at, Zeros(n)), k);
      SumSnoc(ZeroBlocks(init, blockSize), Write(at, Zeros(n * blockSize)), k);
    }
  }

  lemma AtLeastOneBlock(n: nat, blockSize: nat)
    requires blockSize > 0
    ensures n <= n * blockSize
  {
  }

  lemma NothingSums(k: nat)
    ensures Sum([], k, true) == 0 == Sum([], k, false)
  {
  }

  lemma ShorterZeros(at: nat, n: nat, m: nat, k: nat)
    requires n <= m
    ensures Adds(Write(at, Zeros(n)), k, false) == 0 == Adds(Write(at, Zeros(m)), k, false)
    ensures Adds(Write(at, Zeros(n)), k, true) <= Adds(Write(at, Zeros(m)), k, true)
  {
  }

  lemma SumSnoc(ws: seq<Write>, w: Write, k: nat)
    ensures Sum(ws + [w], k, true) == Sum(ws, k, true) + Adds(w, k, true)
    ensures Sum(ws + [w], k, false) == Sum(ws, k, false) + Adds(w, k, false)
  {
    assert (ws + [w])[..|ws|] == ws;
  }

  /** What an operation with data writes, and what it means. */
  lemma DataWrites(op: Operation, blob: bytes, blockSize: nat, d: Decoder)
    requires Performable(op, blob, d) && Placed(op, blob, blockSize, d) && op.kind != ZERO
    ensures op.dst != [] && op.dst[0].startBlock.Some? && op.End() <= |blob| && Contiguous(op.dst, |DataOf(op, blob, d)|, blockSize)
    ensures WritesOf(op, blob[op.Key()..op.End()], blockSize, d)
         == Ok([Write(op.dst[0].startBlock.value * blockSize, DataOf(op, blob, d))])
    ensures Meant(op, blob, blockSize, d) == Spread(DataOf(op, blob, d), op.dst, blockSize)
  {
  }

  /** One operation writes what it means, except that zeroing may write fewer zeros. */
  lemma OperationMeans(op: Operation, blob: bytes, blockSize: nat, d: Decoder, k: nat)
    requires blockSize > 0 && Performable(op, blob, d) && Placed(op, blob, blockSize, d)
    ensures var data := blob[op.Key()..op.End()];
            && WritesOf(op, data, blockSize, d).Ok?
            && var code, meant := WritesOf(op, data, blockSize, d).value, Meant(op, blob, blockSize, d);
               Sum(code, k, false) == Sum(meant, k, false) && Sum(code, k, true) <= Sum(meant, k, true)
  {
    hide Sum, Adds, Spread, Contiguous;
    if op.kind == ZERO {
      ZeroSucceeds(op.dst, blockSize);
      ZerosAddNothing(op.dst, blockSize, k);
    } else {
      DataWrites(op, blob, blockSize, d);
      hide WritesOf, Meant, DataOf;
      var w := Write(op.dst[0].startBlock.value * blockSize, DataOf(op, blob, d));
      SumOne(w, k, false);
      SumOne(w, k, true);
      SpreadSum(w.data, op.dst, blockSize, k, false);
      SpreadSum(w.data, op.dst, blockSize, k, true);
    }
  }

  lemma SumOne(w: Write, k: nat, counting: bool)
    ensures Sum([w], k, counting) == Adds(w, k, counting)
  {
    assert [w][..0] == [];
  }

  lemma AddsSplit(at: nat, data: bytes, n: nat, k: nat, counting: bool)
    requires n <= |data|
    ensures Adds(Write(at, data), k, counting) == Adds(Write(at, data[..n]), k, counting) + Adds(Write(at + n, data[n..]), k, counting)
  {
  }

  lemma EmptySpread(dst: seq<Extent>, blockSize: nat)
    requires dst != [] && dst[0].startBlock.Some?
    ensures Spread([], dst, blockSize) == [Write(dst[0].startBlock.value * blockSize, [])] + Spread([], dst[1..], blockSize)
  {
    SpreadSplit([], dst, blockSize);
  }

  /** Nothing left to spread adds nothing. */
  lemma {:induction false} SpreadNothing(dst: seq<Extent>, blockSize: nat, k: nat, counting: bool)
    ensures Sum(Spread([], dst, blockSize), k, counting) == 0
    ensures forall w :: w in Spread([], dst, blockSize) ==> w.data == []
    decreases dst
  {
    hide Sum, Adds, Room;
    NothingSums(k);
    if dst != [] && dst[0].startBlock.Some? {
      var at := dst[0].startBlock.value * blockSize;
      SpreadNothing(dst[1..], blockSize, k, counting);
      EmptySpread(dst, blockSize);
      hide Spread;
      SumConcat([Write(at, [])], Spread([], dst[1..], blockSize), k, counting);
      SumOne(Write(at, []), k, counting);
      AddsNothing(at, k, counting);
    }
  }

  /** The writes over several extents, first and others. */
  lemma SpreadSplit(data: bytes, dst: seq<Extent>, blockSize: nat)
    requires dst != [] && dst[0].startBlock.Some?
    ensures var at, n := dst[0].startBlock.value * blockSize, if |dst| == 1 then |data| else Min(Room(dst[0], blockSize), |data|);
            n <= |data| && Spread(data, dst, blockSize) == [Write(at, data[..n])] + Spread(data[n..], dst[1..], blockSize)
  {
  }

  /** Over contiguous extents the data is spread as one write would put it. */
  lemma {:induction false} SpreadSum(data: bytes, dst: seq<Extent>, blockSize: nat, k: nat, counting: bool)
    requires Contiguous(dst, |data|, blockSize)
    ensures Sum(Spread(data, dst, blockSize), k, counting)
         == Adds(Write(dst[0].startBlock.value * blockSize, data), k, counting)
    decreases dst
  {
    hide Adds, Spread;
    var at, n := dst[0].startBlock.value * blockSize, if |dst| == 1 then |data| else Min(Room(dst[0], blockSize), |data|);
    SpreadSplit(data, dst, blockSize);
    var first, others := Write(at, data[..n]), Spread(data[n..], dst[1..], blockSize);
    SumConcat([first], others, k, counting);
    SumOne(first, k, counting);
    AddsSplit(at, data, n, k, counting);
    if n == |data| {
      assert data[n..] == [];
      SpreadNothing(dst[1..], blockSize, k, counting);
      AddsNothing(at + n, k, counting);
    } else {
      SpreadSum(data[n..], dst[1..], blockSize, k, counting);
    }
  }

  lemma AddsNothing(at: nat, k: nat, counting: bool)
    ensures Adds(Write(at, []), k, counting) == 0
  {
  }

  lemma {:induction false} CodeMeans(ops: seq<Operation>, blob: bytes, blockSize: nat, d: Decoder, k: nat)
    requires blockSize > 0 && forall i :: 0 <= i < |ops| ==> Performable(ops[i], blob, d) && Placed(ops[i], blob, blockSize, d)
    ensures var code, meant := CodeWrites(ops, blob, blockSize, d), MeantAll(ops, blob, blockSize, d);
            Sum(code, k, false) == Sum(meant, k, false) && Sum(code, k, true) <= Sum(meant, k, true)
    decreases ops
  {
    hide Sum, WritesOf, Meant, Placed;
    if ops != [] {
      var init, op := ops[..|ops| - 1], ops[|ops| - 1];
      assert forall i :: 0 <= i < |init| ==> init[i] == ops[i];
      CodeMeans(init, blob, blockSize, d, k);
      OperationMeans(op, blob, blockSize, d, k);
      var code, meant := WritesOf(op, blob[op.Key()..op.End()], blockSize, d).value, Meant(op, blob, blockSize, d);
      SumConcat(CodeWrites(init, blob, blockSize, d), code, k, false);
      SumConcat(CodeWrites(init, blob, blockSize, d), code, k, true);
      SumConcat(MeantAll(init, blob, blockSize, d), meant, k, false);
      SumConcat(MeantAll(init, blob, blockSize, d), meant, k, true);
    }
  }

  // ----- order does not matter

  lemma MeantSnoc(s: seq<Operation>, x: Operation, blob: bytes, blockSize: nat, d: Decoder, k: nat, counting: bool)
    ensures Sum(MeantAll(s + [x], blob, blockSize, d), k, counting)
         == Sum(MeantAll(s, blob, blockSize, d), k, counting) + Sum(Meant(x, blob, blockSize, d), k, counting)
  {
    hide Meant, Sum;
    assert (s + [x])[..|s|] == s;
    SumConcat(MeantAll(s, blob, blockSize, d), Meant(x, blob, blockSize, d), k, counting);
  }

  lemma {:induction false} InsertSum(x: Operation, s: seq<Operation>, blob: bytes, blockSize: nat, d: Decoder, k: nat, counting: bool)
    ensures Sum(MeantAll(Insert(x, s), blob, blockSize, d), k, counting)
         == Sum(MeantAll(s, blob, blockSize, d), k, counting) + Sum(Meant(x, blob, blockSize, d), k, counting)
    decreases s
  {
    hide MeantAll, Meant, Sum;
    if s == [] {
      assert [] + [x] == [x];
      MeantSnoc([], x, blob, blockSize, d, k, counting);
    } else {
      var init, last := s[..|s| - 1], s[|s| - 1];
      assert s == init + [last];
      MeantSnoc(s, x, blob, blockSize, d, k, counting);
      MeantSnoc(init, last, blob, blockSize, d, k, counting);
      InsertSum(x, init, blob, blockSize, d, k, counting);
      MeantSnoc(Insert(x, init), last, blob, blockSize, d, k, counting);
    }
  }

  lemma {:induction false} SortSum(ops: seq<Operation>, blob: bytes, blockSize: nat, d: Decoder, k: nat, counting: bool)
    ensures Sum(MeantAll(SortByOffset(ops), blob, blockSize, d), k, counting)
         == Sum(MeantAll(ops, blob, blockSize, d), k, counting)
    decreases ops
  {
    hide MeantAll, Meant, Sum;
    if ops != [] {
      var init, last := ops[..|ops| - 1], ops[|ops| - 1];
      assert ops == init + [last];
      SortSum(init, blob, blockSize, d, k, counting);
      InsertSum(last, SortByOffset(init), blob, blockSize, d, k, counting);
      MeantSnoc(init, last, blob, blockSize, d, k, counting);
    }
  }

  /**
   * Main result: when the operations write no byte twice and the extents of each one with data are
   * contiguous as far as its data goes, the extracted image, zero-extended, is what carrying out the
   * operations in manifest order gives, each read straight from its own place; neither the sort nor
   * the short zeroing shows.
   */
  lemma ExtractMeansManifest(ops: seq<Operation>, blob: bytes, blockSize: nat, d: Decoder, k: nat)
    requires blockSize > 0 && Extract(ops, blob, blockSize, d).Ok?
    requires forall op :: op in ops ==> Placed(op, blob, blockSize, d)
    requires WrittenOnce(MeantAll(ops, blob, blockSize, d))
    ensures At(Extract(ops, blob, blockSize, d).value.file, k) == At(WriteAll([], MeantAll(ops, blob, blockSize, d)), k)
  {
    hide Run, Sum, MeantAll, CodeWrites, Performable, Placed, SortByOffset, Forward, WriteAt;
    var s := SortByOffset(ops);
    SortKeeps(ops);
    ExtractSucceeds(ops, blob, blockSize, d);
    RunSucceeds(s, blob, blockSize, d);
    assert forall op :: (op in s <==> op in multiset(s)) && (op in ops <==> op in multiset(ops));
    RunWrites(s, blob, blockSize, d);
    CodeMeans(s, blob, blockSize, d, k);
    SortSum(ops, blob, blockSize, d, k, false);
    SortSum(ops, blob, blockSize, d, k, true);
    ReadsAsSum(CodeWrites(s, blob, blockSize, d), k);
    ReadsAsSum(MeantAll(ops, blob, blockSize, d), k);
  }

  // ----- the file itself, its length included

  function WriteEnd(w: Write): nat {
    if w.data == [] then 0 else w.at + |w.data|
  }

  lemma WriteLength(file: bytes, at: nat, data: bytes)
    ensures |WriteAt(file, at, data)| == if |file| < WriteEnd(Write(at, data)) then WriteEnd(Write(at, data)) else |file|
  {
  }

  /** A file is as long as the farthest write reaches, and some write reaches its end. */
  lemma {:induction false} FileLength(ws: seq<Write>)
    ensures forall w :: w in ws ==> WriteEnd(w) <= |WriteAll([], ws)|
    ensures WriteAll([], ws) != [] ==> exists w :: w in ws && WriteEnd(w) == |WriteAll([], ws)|
    decreases ws
  {
    hide WriteAt, WriteEnd;
    if ws != [] {
      var init, last := ws[..|ws| - 1], ws[|ws| - 1];
      FileLength(init);
      WriteLength(WriteAll([], init), last.at, last.data);
      assert ws == init + [last];
      assert forall w :: w in ws <==> w in init || w == last;
    }
  }

  lemma {:induction false} CodeMembers(ops: seq<Operation>, blob: bytes, blockSize: nat, d: Decoder, w: Write)
    ensures w in CodeWrites(ops, blob, blockSize, d) <==>
              exists op :: op in ops && w in CodeWrites([op], blob, blockSize, d)
    decreases ops
  {
    hide WritesOf;
    if ops != [] {
      var init, op := ops[..|ops| - 1], ops[|ops| - 1];
      CodeMembers(init, blob, blockSize, d, w);
      assert ops == init + [op];
      assert forall x :: x in ops <==> x in init || x == op;
      assert [op][..0] == [];
    }
  }

  lemma {:induction false} MeantMembers(ops: seq<Operation>, blob: bytes, blockSize: nat, d: Decoder, w: Write)
    ensures w in MeantAll(ops, blob, blockSize, d) <==> exists op :: op in ops && w in Meant(op, blob, blockSize, d)
    decreases ops
  {
    hide Meant;
    if ops != [] {
      var init, op := ops[..|ops| - 1], ops[|ops| - 1];
      MeantMembers(init, blob, blockSize, d, w);
      assert ops == init + [op];
      assert forall x :: x in ops <==> x in init || x == op;
    }
  }

  /** Where the data of an operation ends in the image; 0 when it carries none. */
  function DataEnd(op: Operation, blob: bytes, blockSize: nat, d: Decoder): nat {
    if op.kind in {ZERO, OTHER} || op.End() > |blob| || op.dst == [] || op.dst[0].startBlock.None? then 0
    else
      var data := blob[op.Key()..op.End()];
      var x := if op.kind == REPLACE then Some(data) else d.decompress(data);
      if x.None? || x.value == [] then 0 else op.dst[0].startBlock.value * blockSize + |x.value|
  }

  /** Where whole blocks of zeros end at an extent, and where the zeros the code writes there do. */
  function ZeroEnd(e: Extent, blockSize: nat): nat {
    if e.startBlock.None? || e.numBlocks.None? || e.numBlocks.value * blockSize == 0 then 0
    else e.startBlock.value * blockSize + e.numBlocks.value * blockSize
  }

  function ShortZeroEnd(e: Extent, blockSize: nat): nat {
    if e.startBlock.None? || e.numBlocks.None? || e.numBlocks.value == 0 then 0
    else e.startBlock.value * blockSize + e.numBlocks.value
  }

  /** Every zeroed extent ends no later than the data of some operation. */
  ghost predicate DataReachesZeros(ops: seq<Operation>, blob: bytes, blockSize: nat, d: Decoder) {
    forall z, e :: z in ops && z.kind == ZERO && e in z.dst && ZeroEnd(e, blockSize) > 0 ==>
      exists x :: x in ops && ZeroEnd(e, blockSize) <= DataEnd(x, blob, blockSize, d)
  }

  lemma ZeroSnoc(dst: seq<Extent>, blockSize: nat)
    requires blockSize > 0 && dst != [] && ZeroWrites(dst, blockSize).Ok?
    requires forall i :: 0 <= i < |dst| && dst[i].startBlock.Some? ==> dst[i].startBlock.value * blockSize < U64
    ensures var init, e := dst[..|dst| - 1], dst[|dst| - 1];
            && ZeroWrites(init, blockSize).Ok?
            && exists short, long ::
                 && ZeroWrites(dst, blockSize).value == ZeroWrites(init, blockSize).value + [short]
                 && ZeroBlocks(dst, blockSize) == ZeroBlocks(init, blockSize) + [long]
                 && WriteEnd(short) == ShortZeroEnd(e, blockSize) && WriteEnd(long) == ZeroEnd(e, blockSize)
  {
    var init, e := dst[..|dst| - 1], dst[|dst| - 1];
    var at, n := e.startBlock.value * blockSize, e.numBlocks.value;
    var short, long := Write(at, Zeros(n)), Write(at, Zeros(n * blockSize));
    assert WriteEnd(short) == ShortZeroEnd(e, blockSize) && WriteEnd(long) == ZeroEnd(e, blockSize);
    assert ZeroWrites(dst, blockSize).value == ZeroWrites(init, blockSize).value + [short];
  }

  lemma {:induction false} ZeroWritesAt(dst: seq<Extent>, blockSize: nat)
    requires blockSize > 0 && ZeroWrites(dst, blockSize).Ok?
    requires forall i :: 0 <= i < |dst| && dst[i].startBlock.Some? ==> dst[i].startBlock.value * blockSize < U64
    ensures var code, meant := ZeroWrites(dst, blockSize).value, ZeroBlocks(dst, blockSize);
            && |code| == |dst| == |meant|
            && forall i :: 0 <= i < |dst| ==>
                 WriteEnd(code[i]) == ShortZeroEnd(dst[i], blockSize) && WriteEnd(meant[i]) == ZeroEnd(dst[i], blockSize)
    decreases dst
  {
    hide ZeroEnd, ShortZeroEnd, WriteEnd;
    if dst != [] {
      var init := dst[..|dst| - 1];
      assert forall i :: 0 <= i < |init| ==> init[i] == dst[i];
      ZeroSnoc(dst, blockSize);
      ZeroWritesAt(init, blockSize);
    }
  }

  lemma ZeroEnds(dst: seq<Extent>, blockSize: nat)
    requires blockSize > 0 && ZeroWrites(dst, blockSize).Ok?
    requires forall i :: 0 <= i < |dst| && dst[i].startBlock.Some? ==> dst[i].startBlock.value * blockSize < U64
    ensures var code, meant := ZeroWrites(dst, blockSize).value, ZeroBlocks(dst, blockSize);
            && (forall w :: w in code ==> exists e :: e in dst && WriteEnd(w) == ShortZeroEnd(e, blockSize))
            && (forall w :: w in meant ==> exists e :: e in dst && WriteEnd(w) == ZeroEnd(e, blockSize))
            && (forall e :: e in dst ==> exists w :: w in code && WriteEnd(w) == ShortZeroEnd(e, blockSize))
            && (forall e :: e in dst ==> exists w :: w in meant && WriteEnd(w) == ZeroEnd(e, blockSize))
  {
    hide ZeroEnd, ShortZeroEnd, WriteEnd, ZeroWrites, ZeroBlocks;
    ZeroWritesAt(dst, blockSize);
    var code, meant := ZeroWrites(dst, blockSize).value, ZeroBlocks(dst, blockSize);
    forall w | w in code ensures exists e :: e in dst && WriteEnd(w) == ShortZeroEnd(e, blockSize) {
      var i :| 0 <= i < |code| && code[i] == w;
      assert dst[i] in dst;
    }
    forall w | w in meant ensures exists e :: e in dst && WriteEnd(w) == ZeroEnd(e, blockSize) {
      var i :| 0 <= i < |meant| && meant[i] == w;
      assert dst[i] in dst;
    }
    forall e | e in dst
      ensures exists w :: w in code && WriteEnd(w) == ShortZeroEnd(e, blockSize)
      ensures exists w :: w in meant && WriteEnd(w) == ZeroEnd(e, blockSize)
    {
      var i :| 0 <= i < |dst| && dst[i] == e;
      assert code[i] in code && meant[i] in meant;
    }
  }

  /** Spread over contiguous extents, data ends where one write of it would. */
  lemma {:induction false} SpreadEnds(data: bytes, dst: seq<Extent>, blockSize: nat)
    requires Contiguous(dst, |data|, blockSize)
    ensures var end := if data == [] then 0 else dst[0].startBlock.value * blockSize + |data|;
            && (forall w :: w in Spread(data, dst, blockSize) ==> WriteEnd(w) <= end)
            && exists w :: w in Spread(data, dst, blockSize) && WriteEnd(w) == end
    decreases dst
  {
    hide Spread;
    var at, n := dst[0].startBlock.value * blockSize, if |dst| == 1 then |data| else Min(Room(dst[0], blockSize), |data|);
    SpreadSplit(data, dst, blockSize);
    var first, others := Write(at, data[..n]), Spread(data[n..], dst[1..], blockSize);
    assert forall w :: w in Spread(data, dst, blockSize) <==> w == first || w in others;
    if n == |data| {
      assert data[n..] == [];
      SpreadNothing(dst[1..], blockSize, 0, true);
      assert data[..n] == data;
      assert first in Spread(data, dst, blockSize);
    } else {
      SpreadEnds(data[n..], dst[1..], blockSize);
      var w :| w in others && WriteEnd(w) == at + n + |data[n..]|;
      assert w in Spread(data, dst, blockSize);
    }
  }

  /** An operation with data writes it to where it ends, and is meant to. */
  lemma DataEnds(op: Operation, blob: bytes, blockSize: nat, d: Decoder)
    requires blockSize > 0 && Performable(op, blob, d) && Placed(op, blob, blockSize, d) && op.kind != ZERO
    ensures exists w :: CodeWrites([op], blob, blockSize, d) == [w] && WriteEnd(w) == DataEnd(op, blob, blockSize, d)
    ensures forall w :: w in Meant(op, blob, blockSize, d) ==> WriteEnd(w) <= DataEnd(op, blob, blockSize, d)
    ensures exists w :: w in Meant(op, blob, blockSize, d) && WriteEnd(w) == DataEnd(op, blob, blockSize, d)
  {
    hide Spread, Contiguous, WritesOf, Meant, Performable;
    DataWrites(op, blob, blockSize, d);
    CodeOfOne(op, blob, blockSize, d);
    var w := Write(op.dst[0].startBlock.value * blockSize, DataOf(op, blob, d));
    DataEndIs(op, blob, blockSize, d);
    assert CodeWrites([op], blob, blockSize, d) == [w] && WriteEnd(w) == DataEnd(op, blob, blockSize, d);
    SpreadEnds(w.data, op.dst, blockSize);
  }

  lemma DataEndIs(op: Operation, blob: bytes, blockSize: nat, d: Decoder)
    requires Performable(op, blob, d) && Placed(op, blob, blockSize, d) && op.kind != ZERO
    ensures op.dst != [] && op.dst[0].startBlock.Some?
    ensures DataEnd(op, blob, blockSize, d)
         == if DataOf(op, blob, d) == [] then 0 else op.dst[0].startBlock.value * blockSize + |DataOf(op, blob, d)|
  {
  }

  /** What one operation can make a file end at: its data, or one of its zeroed extents. */
  ghost predicate EndsAt(op: Operation, blob: bytes, blockSize: nat, d: Decoder, short: bool, end: nat) {
    if op.kind == ZERO then exists e :: e in op.dst && end == if short then ShortZeroEnd(e, blockSize) else ZeroEnd(e, blockSize)
    else end == DataEnd(op, blob, blockSize, d)
  }

  lemma OperationEnds(op: Operation, blob: bytes, blockSize: nat, d: Decoder)
    requires blockSize > 0 && Performable(op, blob, d) && Placed(op, blob, blockSize, d)
    ensures var code, meant := CodeWrites([op], blob, blockSize, d), Meant(op, blob, blockSize, d);
            && (forall w :: w in code ==> EndsAt(op, blob, blockSize, d, true, WriteEnd(w)))
            && (forall w :: w in meant ==> exists end: nat :: EndsAt(op, blob, blockSize, d, false, end) && WriteEnd(w) <= end)
            && (forall end: nat :: EndsAt(op, blob, blockSize, d, true, end) ==> exists w :: w in code && WriteEnd(w) == end)
            && (forall end: nat :: EndsAt(op, blob, blockSize, d, false, end) ==> exists w :: w in meant && WriteEnd(w) == end)
  {
    hide WriteEnd, ZeroEnd, ShortZeroEnd, DataEnd, Placed, Performable, CodeWrites, Meant, WritesOf;
    CodeOfOne(op, blob, blockSize, d);
    if op.kind == ZERO {
      ZeroIsPerformed(op, blob, blockSize, d);
      ZeroEnds(op.dst, blockSize);
      forall w | w in Meant(op, blob, blockSize, d) ensures EndsAt(op, blob, blockSize, d, false, WriteEnd(w)) {}
    } else {
      DataEnds(op, blob, blockSize, d);
      assert EndsAt(op, blob, blockSize, d, false, DataEnd(op, blob, blockSize, d));
    }
  }

  lemma CodeOfOne(op: Operation, blob: bytes, blockSize: nat, d: Decoder)
    requires blockSize > 0 && Performable(op, blob, d)
    ensures op.End() <= |blob| && WritesOf(op, blob[op.Key()..op.End()], blockSize, d).Ok?
    ensures CodeWrites([op], blob, blockSize, d) == WritesOf(op, blob[op.Key()..op.End()], blockSize, d).value
  {
    ZeroSucceeds(op.dst, blockSize);
    assert [op][..0] == [];
  }

  lemma ZeroIsPerformed(op: Operation, blob: bytes, blockSize: nat, d: Decoder)
    requires Performable(op, blob, d) && Placed(op, blob, blockSize, d) && op.kind == ZERO
    ensures ZeroWrites(op.dst, blockSize).Ok?
    ensures WritesOf(op, blob[op.Key()..op.End()], blockSize, d) == ZeroWrites(op.dst, blockSize)
    ensures Meant(op, blob, blockSize, d) == ZeroBlocks(op.dst, blockSize)
    ensures forall i :: 0 <= i < |op.dst| && op.dst[i].startBlock.Some? ==> op.dst[i].startBlock.value * blockSize < U64
  {
    ZeroSucceeds(op.dst, blockSize);
  }

  /** The extracted and the meant file: what they reach at least, and what makes them end where they do. */
  ghost predicate Reaches(ops: seq<Operation>, blob: bytes, blockSize: nat, d: Decoder, short: bool, length: nat) {
    && (forall op, end: nat :: op in ops && EndsAt(op, blob, blockSize, d, short, end) ==> end <= length)
    && (length > 0 ==> exists op :: op in ops && EndsAt(op, blob, blockSize, d, short, length))
  }

  lemma CodeReaches(ops: seq<Operation>, blob: bytes, blockSize: nat, d: Decoder)
    requires blockSize > 0 && forall op :: op in ops ==> Performable(op, blob, d) && Placed(op, blob, blockSize, d)
    ensures Reaches(ops, blob, blockSize, d, true, |WriteAll([], CodeWrites(ops, blob, blockSize, d))|)
  {
    hide EndsAt, WriteEnd, WriteAll, Placed, Performable, CodeWrites;
    var code := CodeWrites(ops, blob, blockSize, d);
    var length := |WriteAll([], code)|;
    FileLength(code);
    forall op, end: nat | op in ops && EndsAt(op, blob, blockSize, d, true, end) ensures end <= length {
      OperationEnds(op, blob, blockSize, d);
      var w :| w in CodeWrites([op], blob, blockSize, d) && WriteEnd(w) == end;
      CodeMembers(ops, blob, blockSize, d, w);
    }
    if length > 0 {
      var w :| w in code && WriteEnd(w) == length;
      CodeMembers(ops, blob, blockSize, d, w);
      var op :| op in ops && w in CodeWrites([op], blob, blockSize, d);
      OperationEnds(op, blob, blockSize, d);
    }
  }

  /** No operation is meant to end behind the meant file. */
  lemma MeantWithin(ops: seq<Operation>, blob: bytes, blockSize: nat, d: Decoder, op: Operation, end: nat)
    requires blockSize > 0 && op in ops && Performable(op, blob, d) && Placed(op, blob, blockSize, d)
    requires EndsAt(op, blob, blockSize, d, false, end)
    ensures end <= |WriteAll([], MeantAll(ops, blob, blockSize, d))|
  {
    hide EndsAt, WriteEnd, WriteAll, Placed, Performable, MeantAll, Meant, CodeWrites;
    FileLength(MeantAll(ops, blob, blockSize, d));
    OperationEnds(op, blob, blockSize, d);
    var w :| w in Meant(op, blob, blockSize, d) && WriteEnd(w) == end;
    MeantMembers(ops, blob, blockSize, d, w);
  }

  lemma MeantReaches(ops: seq<Operation>, blob: bytes, blockSize: nat, d: Decoder)
    requires blockSize > 0 && forall op :: op in ops ==> Performable(op, blob, d) && Placed(op, blob, blockSize, d)
    ensures Reaches(ops, blob, blockSize, d, false, |WriteAll([], MeantAll(ops, blob, blockSize, d))|)
  {
    hide EndsAt, WriteEnd, WriteAll, Placed, Performable, MeantAll, Meant, CodeWrites;
    var meant := MeantAll(ops, blob, blockSize, d);
    var length := |WriteAll([], meant)|;
    forall op, end: nat | op in ops && EndsAt(op, blob, blockSize, d, false, end) ensures end <= length {
      MeantWithin(ops, blob, blockSize, d, op, end);
    }
    FileLength(meant);
    if length > 0 {
      var w :| w in meant && WriteEnd(w) == length;
      MeantMembers(ops, blob, blockSize, d, w);
      var op :| op in ops && w in Meant(op, blob, blockSize, d);
      OperationEnds(op, blob, blockSize, d);
      var end: nat :| EndsAt(op, blob, blockSize, d, false, end) && WriteEnd(w) <= end;
      MeantWithin(ops, blob, blockSize, d, op, end);
    }
  }

  lemma ShortEnds(e: Extent, blockSize: nat)
    requires blockSize > 0
    ensures ShortZeroEnd(e, blockSize) <= ZeroEnd(e, blockSize)
    ensures blockSize == 1 ==> ShortZeroEnd(e, blockSize) == ZeroEnd(e, blockSize)
    ensures blockSize > 1 && ZeroEnd(e, blockSize) > 0 ==> 0 < ShortZeroEnd(e, blockSize) < ZeroEnd(e, blockSize)
  {
    if e.numBlocks.Some? { MoreThanBlocks(e.numBlocks.value, blockSize); }
  }

  lemma MoreThanBlocks(n: nat, blockSize: nat)
    requires blockSize > 0
    ensures n <= n * blockSize && (blockSize > 1 && n > 0 ==> n < n * blockSize) && (n == 0 <==> n * blockSize == 0)
  {
  }

  /** The file is never longer than meant, and as long exactly when data reaches every zeroed extent's end. */
  lemma LengthsAgreeExactly(ops: seq<Operation>, blob: bytes, blockSize: nat, d: Decoder, short: nat, long: nat)
    requires blockSize > 0 && Reaches(ops, blob, blockSize, d, true, short) && Reaches(ops, blob, blockSize, d, false, long)
    ensures short <= long
    ensures short == long <==> blockSize == 1 || DataReachesZeros(ops, blob, blockSize, d)
  {
    hide ZeroEnd, ShortZeroEnd, DataEnd;
    if short > 0 {
      var op :| op in ops && EndsAt(op, blob, blockSize, d, true, short);
      if op.kind == ZERO {
        var e :| e in op.dst && short == ShortZeroEnd(e, blockSize);
        ShortEnds(e, blockSize);
        assert EndsAt(op, blob, blockSize, d, false, ZeroEnd(e, blockSize));
      } else {
        assert EndsAt(op, blob, blockSize, d, false, short);
      }
    }
    if blockSize == 1 || DataReachesZeros(ops, blob, blockSize, d) {
      LongIsReached(ops, blob, blockSize, d, short, long);
    }
    if short == long && blockSize > 1 {
      forall z, e | z in ops && z.kind == ZERO && e in z.dst && ZeroEnd(e, blockSize) > 0
        ensures exists x :: x in ops && ZeroEnd(e, blockSize) <= DataEnd(x, blob, blockSize, d)
      {
        assert EndsAt(z, blob, blockSize, d, false, ZeroEnd(e, blockSize));
        DataAtEnd(ops, blob, blockSize, d, short);
      }
    }
  }

  lemma LongIsReached(ops: seq<Operation>, blob: bytes, blockSize: nat, d: Decoder, short: nat, long: nat)
    requires blockSize > 0 && Reaches(ops, blob, blockSize, d, true, short) && Reaches(ops, blob, blockSize, d, false, long)
    requires blockSize == 1 || DataReachesZeros(ops, blob, blockSize, d)
    ensures long <= short
  {
    hide ZeroEnd, ShortZeroEnd, DataEnd;
    if long > 0 {
      var op :| op in ops && EndsAt(op, blob, blockSize, d, false, long);
      if op.kind != ZERO {
        assert EndsAt(op, blob, blockSize, d, true, long);
      } else {
        var e :| e in op.dst && long == ZeroEnd(e, blockSize);
        ShortEnds(e, blockSize);
        if blockSize == 1 {
          assert EndsAt(op, blob, blockSize, d, true, long);
        } else {
          var x :| x in ops && long <= DataEnd(x, blob, blockSize, d);
          OnlyData(x, blob, blockSize, d);
          assert EndsAt(x, blob, blockSize, d, true, DataEnd(x, blob, blockSize, d));
        }
      }
    }
  }

  lemma OnlyData(op: Operation, blob: bytes, blockSize: nat, d: Decoder)
    requires DataEnd(op, blob, blockSize, d) > 0
    ensures op.kind != ZERO
  {
  }

  /** Where both files end together behind some zeros, it is data that ends there. */
  lemma DataAtEnd(ops: seq<Operation>, blob: bytes, blockSize: nat, d: Decoder, length: nat)
    requires blockSize > 1 && length > 0
    requires Reaches(ops, blob, blockSize, d, true, length) && Reaches(ops, blob, blockSize, d, false, length)
    ensures exists x :: x in ops && DataEnd(x, blob, blockSize, d) == length
  {
    hide ZeroEnd, ShortZeroEnd, DataEnd;
    var op :| op in ops && EndsAt(op, blob, blockSize, d, true, length);
    if op.kind == ZERO {
      var e :| e in op.dst && length == ShortZeroEnd(e, blockSize);
      NoZeroFirst(e, blockSize);
      ShortEnds(e, blockSize);
      ZeroInside(ops, blob, blockSize, d, length, op, e);
    }
  }

  lemma ZeroInside(ops: seq<Operation>, blob: bytes, blockSize: nat, d: Decoder, length: nat, op: Operation, e: Extent)
    requires Reaches(ops, blob, blockSize, d, false, length) && op in ops && op.kind == ZERO && e in op.dst
    ensures ZeroEnd(e, blockSize) <= length
  {
    hide ZeroEnd, ShortZeroEnd, DataEnd;
    assert EndsAt(op, blob, blockSize, d, false, ZeroEnd(e, blockSize));
  }

  lemma NoZeroFirst(e: Extent, blockSize: nat)
    requires blockSize > 1 && ShortZeroEnd(e, blockSize) > 0
    ensures ZeroEnd(e, blockSize) > 0
  {
    MoreThanBlocks(e.numBlocks.value, blockSize);
  }

  lemma SameFile(a: bytes, b: bytes)
    requires |a| == |b| && forall k: nat :: At(a, k) == At(b, k)
    ensures a == b
  {
    forall k | 0 <= k < |a| ensures a[k] == b[k] { assert At(a, k) == At(b, k); }
  }

  /**
   * Main result for the file itself: under the same conditions it is the meant image, its length
   * included, exactly when blocks are single bytes or no zeroed extent ends behind all data.
   */
  lemma FileIsMeantExactly(ops: seq<Operation>, blob: bytes, blockSize: nat, d: Decoder)
    requires blockSize > 0 && Extract(ops, blob, blockSize, d).Ok?
    requires forall op :: op in ops ==> Placed(op, blob, blockSize, d)
    requires WrittenOnce(MeantAll(ops, blob, blockSize, d))
    ensures Extract(ops, blob, blockSize, d).value.file == WriteAll([], MeantAll(ops, blob, blockSize, d))
       <==> blockSize == 1 || DataReachesZeros(ops, blob, blockSize, d)
  {
    hide Run, MeantAll, CodeWrites, Performable, Placed, SortByOffset, Forward, WriteAll, Reaches, DataReachesZeros, WrittenOnce, At;
    var s := SortByOffset(ops);
    SortKeeps(ops);
    ExtractSucceeds(ops, blob, blockSize, d);
    assert forall op :: (op in s <==> op in multiset(s)) && (op in ops <==> op in multiset(ops));
    RunWrites(s, blob, blockSize, d);
    CodeReaches(s, blob, blockSize, d);
    MeantReaches(ops, blob, blockSize, d);
    var file, meant := Extract(ops, blob, blockSize, d).value.file, WriteAll([], MeantAll(ops, blob, blockSize, d));
    SameOperations(s, ops, blob, blockSize, d, |file|);
    LengthsAgreeExactly(ops, blob, blockSize, d, |file|, |meant|);
    if |file| == |meant| {
      forall k: nat ensures At(file, k) == At(meant, k) { ExtractMeansManifest(ops, blob, blockSize, d, k); }
      SameFile(file, meant);
    }
  }

  lemma SameOperations(s: seq<Operation>, ops: seq<Operation>, blob: bytes, blockSize: nat, d: Decoder, length: nat)
    requires (forall op :: op in s <==> op in ops) && Reaches(s, blob, blockSize, d, true, length)
    ensures Reaches(ops, blob, blockSize, d, true, length)
  {
    hide EndsAt;
  }

  /** Zeroing two blocks of 4096 bytes and nothing else leaves a file of two bytes. */
  lemma TwoBlocksBecomeTwoBytes(d: Decoder)
    ensures var ops := [Operation(ZERO, Some(0), Some(0), [Extent(Some(0), Some(2))])];
            && Extract(ops, [], 4096, d).Ok? && |Extract(ops, [], 4096, d).value.file| == 2
            && |WriteAll([], MeantAll(ops, [], 4096, d))| == 8192
  {
    hide WriteAt;
    var e := Extent(Some(0), Some(2));
    var op := Operation(ZERO, Some(0), Some(0), [e]);
    assert [op][..0] == [] && [e][..0] == [];
    assert SortByOffset([op]) == [op];
    assert ZeroWrites([], 4096) == Ok([]);
    assert ZeroWrites([e], 4096).value == [] + [Write(0, Zeros(2))];
    assert ZeroBlocks([e], 4096) == [Write(0, Zeros(8192))];
    WriteOne([], 0, Zeros(2));
    WriteOne([], 0, Zeros(8192));
    WriteLength([], 0, Zeros(2));
    WriteLength([], 0, Zeros(8192));
    assert MeantAll([op], [], 4096, d) == [Write(0, Zeros(8192))];
    assert Run([], [], 4096, d) == Ok(Progress(0, []));
  }

  /** Two bytes for two extents that are apart: both are written at the first one. */
  lemma SecondExtentIgnored(d: Decoder)
    ensures var ops := [Operation(REPLACE, Some(0), Some(2), [Extent(Some(0), Some(1)), Extent(Some(5), Some(1))])];
            && Extract(ops, [7, 8], 1, d).Ok? && Extract(ops, [7, 8], 1, d).value.file == [7, 8]
            && At(WriteAll([], MeantAll(ops, [7, 8], 1, d)), 1) == 0 && At(WriteAll([], MeantAll(ops, [7, 8], 1, d)), 5) == 8
  {
    var blob: bytes, dst := [7, 8], [Extent(Some(0), Some(1)), Extent(Some(5), Some(1))];
    var op := Operation(REPLACE, Some(0), Some(2), dst);
    assert [op][..0] == [] && blob[0..2] == blob && blob[..1] == [7] && blob[1..] == [8] && dst[1..] == [dst[1]];
    assert SortByOffset([op]) == [op];
    assert Run([], blob, 1, d) == Ok(Progress(0, []));
    WriteOne([], 0, blob);
    assert Spread([8], [dst[1]], 1) == [Write(5, [8])] by { assert [8][..1] == [8] && [dst[1]][1..] == []; }
    var a, b := Write(0, [7]), Write(5, [8]);
    assert MeantAll([op], blob, 1, d) == [a, b];
    assert [a, b][..1] == [a] && [a][..0] == [];
  }
}
