/**
 * After the payload: the vendor marks, the copied vbmeta and the AVB footer that `repack` writes,
 * and what `parse_image` recovers from them. AVB1 signatures are not part of this model.
 */
module BootTail {
  import opened Bytes
  import opened Format
  import opened BootHeader
  import opened BootKernel

  const SEANDROID_MAGIC: bytes := [0x53, 0x45, 0x41, 0x4E, 0x44, 0x52, 0x4F, 0x49, 0x44, 0x45, 0x4E, 0x46, 0x4F, 0x52, 0x43, 0x45]
  const LG_BUMP_MAGIC: bytes := [0x41, 0xA9, 0xE4, 0x67, 0x74, 0x4D, 0x1D, 0x1B, 0xA4, 0x29, 0xF2, 0xEC, 0xEA, 0x65, 0x52, 0x79]
  const AVB_FOOTER_MAGIC: bytes := [0x41, 0x56, 0x42, 0x66] // "AVBf"
  const AVB_MAGIC: bytes := [0x41, 0x56, 0x42, 0x30] // "AVB0"
  const FOOTER_SIZE := 64
  const VBMETA_ALIGN := 4096
  const VBMETA_FLAGS := 120

  /** A 32-bit offset as a big-endian 64-bit field. */
  function BE64(n: u32): (b: bytes)
    ensures |b| == 8
  {
    [0, 0, 0, 0] + BE32(n)
  }

  function Big(s: bytes, at: nat): nat {
    BigWord(s, at) * U32 + BigWord(s, at + 4)
  }

  lemma BigOfBE64(s: bytes, at: nat, n: u32)
    requires Holds(s, at, BE64(n))
    ensures at + 8 <= |s| && Big(s, at) == n
  {
    HoldsPointwise(s, at, BE64(n));
    var q, h := n / 256, n / 65536;
    assert h == q / 256 && n / 16777216 == h / 256;
    assert n == n % 256 + 256 * q && q == q % 256 + 256 * h && h == h % 256 + 256 * (h / 256);
    assert forall i :: 0 <= i < 8 ==> s[at + i] == BE64(n)[i];
    assert BigWord(s, at) == 0 && BigWord(s, at + 4) == n;
  }

  // ----- parsing

  /** The footer's fields that matter: where the payload ended, and where and how long vbmeta is. */
  datatype Tail = Tail(seandroid: bool, lgBump: bool, footer: Option<nat>, vbmeta: Option<nat>)

  const NO_TAIL := Tail(false, false, None, None)

  function FooterOf(img: bytes): Option<nat> {
    if |img| >= FOOTER_SIZE && MatchAt(img, |img| - FOOTER_SIZE, AVB_FOOTER_MAGIC) then Some(|img| - FOOTER_SIZE) else None
  }

  /** The tail part of `parse_image`: `base` is the payload's start, `end` its length. */
  function ParseTail(img: bytes, base: nat, end: nat): Tail
    requires base + end <= |img|
  {
    var at, n := base + end, |img| - base - end;
    if n == 0 then NO_TAIL
    else
      var sea := n >= 16 && MatchAt(img, at, SEANDROID_MAGIC);
      var lg := !sea && n >= 16 && MatchAt(img, at, LG_BUMP_MAGIC);
      var footer := FooterOf(img);
      if footer.None? then Tail(sea, lg, None, None)
      else
        var meta := base + Big(img, footer.value + 20);
        Tail(sea, lg, footer, if MatchAt(img, meta, AVB_MAGIC) then Some(meta) else None)
  }

  // ----- writing

  /** What `repack` knows about the source image. */
  datatype Marks = Marks(seandroid: bool, lgBump: bool, dhtb: bool, chromeos: bool, footer: bytes, vbmeta: Option<bytes>)

  predicate ValidMarks(m: Marks) {
    m.vbmeta.Some? ==> |m.footer| == FOOTER_SIZE && StartsWith(m.footer, AVB_FOOTER_MAGIC)
  }

  function MarkBytes(m: Marks): bytes {
    if m.seandroid then SEANDROID_MAGIC + if m.dhtb then [0xFF, 0xFF, 0xFF, 0xFF] else []
    else if m.lgBump then LG_BUMP_MAGIC
    else []
  }

  /** Padding of `n` bytes after the header's start to a multiple of `a`. */
  function Gap(n: nat, a: nat): nat
    requires a > 0
  {
    AlignTo(n, a) - n
  }

  /** `off.total`, from the head's and the payload's lengths. */
  function TotalAt(m: Marks, head: nat, payload: nat): nat {
    head + payload + |MarkBytes(m)|
  }

  function VbmetaAt(m: Marks, head: nat, payload: nat, page: nat): nat
    requires page > 0
  {
    head + AlignTo(AlignTo(payload + |MarkBytes(m)|, page), VBMETA_ALIGN)
  }

  /** Everything after the payload before the footer is patched in, padded up to the source's size. */
  function Unpatched(m: Marks, head: nat, payload: nat, page: nat, size: nat): (r: bytes)
    requires page > 0
  {
    var marks := MarkBytes(m);
    var n := payload + |marks|;
    var paged := marks + Zeros(Gap(n, page));
    var meta := if m.vbmeta.Some? then Zeros(Gap(AlignTo(n, page), VBMETA_ALIGN)) + m.vbmeta.value else [];
    var all := paged + meta;
    all + if !m.chromeos && head + payload + |all| < size then Zeros(size - head - payload - |all|) else []
  }

  function NewFooter(m: Marks, total: u32, vbmeta: u32): (f: bytes)
    requires ValidMarks(m) && m.vbmeta.Some?
    ensures |f| == FOOTER_SIZE
  {
    Overwrite(Overwrite(m.footer, 12, BE64(total)), 20, BE64(vbmeta))
  }

  /** Room for the footer behind the copied vbmeta. */
  predicate FooterFits(m: Marks, head: nat, payload: nat, page: nat, size: nat)
    requires page > 0
  {
    m.vbmeta.Some? ==>
      |m.vbmeta.value| >= VBMETA_FLAGS + 4
      && VbmetaAt(m, head, payload, page) + |m.vbmeta.value| + FOOTER_SIZE <= head + payload + |Unpatched(m, head, payload, page, size)|
  }

  /** Everything after the payload; with `patchFlags` the copied vbmeta's flags become 3. */
  function Rest(m: Marks, head: nat, payload: nat, page: nat, size: nat, patchFlags: bool): bytes
    requires page > 0 && ValidMarks(m) && FooterFits(m, head, payload, page, size)
  {
    var u := Unpatched(m, head, payload, page, size);
    if m.vbmeta.None? then u
    else
      var at := VbmetaAt(m, head, payload, page);
      var footed := Overwrite(u, |u| - FOOTER_SIZE, NewFooter(m, TotalAt(m, head, payload) % U32, at % U32));
      if patchFlags then Overwrite(footed, at - head - payload + VBMETA_FLAGS, BE32(3)) else footed
  }

  // ----- what parsing the new tail recovers

  /** The same bytes, part by part: mark, zeros, vbmeta, zeros. */
  lemma UnpatchedIs(m: Marks, head: nat, payload: nat, page: nat, size: nat) returns (gap: nat, pad: nat)
    requires page > 0
    ensures var meta := if m.vbmeta.Some? then m.vbmeta.value else [];
            Unpatched(m, head, payload, page, size) == MarkBytes(m) + Zeros(gap) + meta + Zeros(pad)
    ensures m.vbmeta.Some? ==> head + payload + |MarkBytes(m)| + gap == VbmetaAt(m, head, payload, page)
    ensures !m.chromeos ==> head + payload + |Unpatched(m, head, payload, page, size)| >= size
  {
    hide AlignTo, MarkBytes;
    var marks := MarkBytes(m);
    var n := payload + |marks|;
    var meta := if m.vbmeta.Some? then m.vbmeta.value else [];
    var g1 := Gap(n, page);
    var g2 := if m.vbmeta.Some? then Gap(AlignTo(n, page), VBMETA_ALIGN) else 0;
    var all := |marks| + g1 + g2 + |meta|;
    gap, pad := g1 + g2, if !m.chromeos && head + payload + all < size then size - head - payload - all else 0;
    assert Zeros(gap) == Zeros(g1) + Zeros(g2);
    assert m.vbmeta.None? ==> marks + Zeros(g1) + [] == marks + Zeros(gap) + meta;
    assert m.vbmeta.Some? ==> marks + Zeros(g1) + (Zeros(g2) + meta) == marks + Zeros(gap) + meta;
  }

  /** The layout of the bytes after the payload, before the footer is patched in. */
  lemma UnpatchedParts(m: Marks, head: nat, payload: nat, page: nat, size: nat)
    requires page > 0
    ensures var u := Unpatched(m, head, payload, page, size);
            && Holds(u, 0, MarkBytes(m))
            && (m.vbmeta.Some? ==>
                  VbmetaAt(m, head, payload, page) >= head + payload + |MarkBytes(m)|
                  && Holds(u, VbmetaAt(m, head, payload, page) - head - payload, m.vbmeta.value))
            && (!m.chromeos ==> head + payload + |u| >= size)
            && (forall i :: |MarkBytes(m)| <= i < |u| && Before(m, head, payload, page, i) ==> u[i] == 0)
  {
    hide AlignTo, MarkBytes, Unpatched, VbmetaAt;
    var gap, pad := UnpatchedIs(m, head, payload, page, size);
    var marks := MarkBytes(m);
    var meta := if m.vbmeta.Some? then m.vbmeta.value else [];
    HoldsMiddle([], marks, Zeros(gap) + meta + Zeros(pad));
    assert [] + marks + (Zeros(gap) + meta + Zeros(pad)) == marks + Zeros(gap) + meta + Zeros(pad);
    HoldsMiddle(marks + Zeros(gap), meta, Zeros(pad));
  }

  /** `i` bytes into the rest, no vbmeta has started. */
  predicate Before(m: Marks, head: nat, payload: nat, page: nat, i: nat)
    requires page > 0
  {
    m.vbmeta.Some? ==> head + payload + i < VbmetaAt(m, head, payload, page)
  }

  /** Patching the footer and the flags changes neither the start of the rest nor the start of vbmeta. */
  lemma RestParts(m: Marks, head: nat, payload: nat, page: nat, size: nat, patchFlags: bool)
    requires page > 0 && ValidMarks(m) && FooterFits(m, head, payload, page, size)
    ensures var u, r := Unpatched(m, head, payload, page, size), Rest(m, head, payload, page, size, patchFlags);
            && |r| == |u|
            && (m.vbmeta.None? ==> r == u)
            && (m.vbmeta.Some? ==>
                  var at := VbmetaAt(m, head, payload, page) - head - payload;
                  && at + VBMETA_FLAGS + 4 + FOOTER_SIZE <= |u|
                  && (forall i :: 0 <= i < at + VBMETA_FLAGS ==> r[i] == u[i])
                  && (forall i :: 0 <= i < |u| - FOOTER_SIZE && !(patchFlags && at + VBMETA_FLAGS <= i < at + VBMETA_FLAGS + 4) ==> r[i] == u[i])
                  && (patchFlags ==> Holds(r, at + VBMETA_FLAGS, BE32(3)))
                  && Holds(r, |u| - FOOTER_SIZE, NewFooter(m, TotalAt(m, head, payload) % U32, (head + payload + at) % U32)))
  {
    hide Unpatched, MarkBytes, AlignTo, BE64;
    if m.vbmeta.Some? {
      var u, at := Unpatched(m, head, payload, page, size), VbmetaAt(m, head, payload, page);
      assert at >= head + payload by { AlignsUp(payload + |MarkBytes(m)|, page); }
      var f := NewFooter(m, TotalAt(m, head, payload) % U32, at % U32);
      var footed := Overwrite(u, |u| - FOOTER_SIZE, f);
      HoldsPointwise(footed, |u| - FOOTER_SIZE, f);
      HoldsPointwise(Rest(m, head, payload, page, size, patchFlags), |u| - FOOTER_SIZE, f);
      if patchFlags { HoldsPointwise(Rest(m, head, payload, page, size, patchFlags), at - head - payload + VBMETA_FLAGS, BE32(3)); }
    }
  }

  lemma AlignsUp(n: nat, page: nat)
    requires page > 0
    ensures AlignTo(AlignTo(n, page), VBMETA_ALIGN) >= n
  {
  }

  lemma FooterReads(m: Marks, total: u32, vbmeta: u32, s: bytes, at: nat)
    requires ValidMarks(m) && m.vbmeta.Some? && Holds(s, at, NewFooter(m, total, vbmeta))
    ensures MatchAt(s, at, AVB_FOOTER_MAGIC) && at + FOOTER_SIZE <= |s|
    ensures Big(s, at + 12) == total && Big(s, at + 20) == vbmeta
  {
    hide BE64, Big;
    var f := NewFooter(m, total, vbmeta);
    assert f[..4] == m.footer[..4] == AVB_FOOTER_MAGIC;
    HoldsPart(s, at, f, 0, 4);
    assert f[12..20] == BE64(total) && f[20..28] == BE64(vbmeta);
    HoldsPart(s, at, f, 12, 20);
    HoldsPart(s, at, f, 20, 28);
    BigOfBE64(s, at + 12, total);
    BigOfBE64(s, at + 20, vbmeta);
  }

  /** What parsing takes the first bytes of the rest for. */
  predicate MarkSeen(m: Marks, r: bytes) {
    && (m.seandroid <==> MatchAt(r, 0, SEANDROID_MAGIC))
    && (!m.seandroid ==> (m.lgBump <==> MatchAt(r, 0, LG_BUMP_MAGIC)))
  }

  lemma MarkAtStart(m: Marks, r: bytes)
    requires m.seandroid || m.lgBump
    requires |MarkBytes(m)| <= |r| && forall i :: 0 <= i < |MarkBytes(m)| ==> r[i] == MarkBytes(m)[i]
    ensures MarkSeen(m, r)
  {
    var piece := if m.seandroid then SEANDROID_MAGIC else LG_BUMP_MAGIC;
    assert forall i :: 0 <= i < 16 ==> r[0 + i] == piece[i];
    HoldsPointwise(r, 0, piece);
    if !m.seandroid { NoMatch(r, 0, SEANDROID_MAGIC, 0); }
  }

  /** The first bytes of the rest are the vendor mark, or can be taken for none. */
  lemma MarksRead(m: Marks, head: nat, payload: nat, page: nat, size: nat, patchFlags: bool)
    requires page > 0 && ValidMarks(m) && FooterFits(m, head, payload, page, size)
    requires m.vbmeta.Some? ==> StartsWith(m.vbmeta.value, AVB_MAGIC)
    ensures MarkSeen(m, Rest(m, head, payload, page, size, patchFlags))
  {
    hide Unpatched, Rest, AlignTo, MarkBytes;
    var u, r, marks := Unpatched(m, head, payload, page, size), Rest(m, head, payload, page, size, patchFlags), MarkBytes(m);
    UnpatchedParts(m, head, payload, page, size);
    RestParts(m, head, payload, page, size, patchFlags);
    HoldsPointwise(u, 0, marks);
    if m.seandroid || m.lgBump {
      MarkAtStart(m, r);
    } else if |r| >= 16 {
      NoMarks(m);
      if m.vbmeta.Some? && VbmetaAt(m, head, payload, page) == head + payload {
        HoldsPointwise(u, 0, m.vbmeta.value);
        assert m.vbmeta.value[..4] == AVB_MAGIC;
        assert r[1] == AVB_MAGIC[1];
        NoMatch(r, 0, SEANDROID_MAGIC, 1);
        NoMatch(r, 0, LG_BUMP_MAGIC, 1);
      } else {
        assert r[0] == 0;
        NoMatch(r, 0, SEANDROID_MAGIC, 0);
        NoMatch(r, 0, LG_BUMP_MAGIC, 0);
      }
    }
  }

  lemma NoMarks(m: Marks)
    requires !m.seandroid && !m.lgBump
    ensures MarkBytes(m) == []
  {
  }

  lemma NoMatch(s: bytes, at: nat, piece: bytes, i: nat)
    requires i < |piece| && at + i < |s| && s[at + i] != piece[i]
    ensures !MatchAt(s, at, piece)
  {
    if at + |piece| <= |s| { assert s[at..at + |piece|][i] == s[at + i]; }
  }

  /** A rest of zeros and a mark has no footer, if it is long enough to be searched for one. */
  lemma NoFooter(m: Marks, head: nat, payload: nat, page: nat, size: nat)
    requires page > 0 && m.vbmeta.None? && |Unpatched(m, head, payload, page, size)| >= FOOTER_SIZE
    ensures var u := Unpatched(m, head, payload, page, size); !MatchAt(u, |u| - FOOTER_SIZE, AVB_FOOTER_MAGIC)
  {
    hide Unpatched, AlignTo;
    var u := Unpatched(m, head, payload, page, size);
    var at := |u| - FOOTER_SIZE;
    UnpatchedParts(m, head, payload, page, size);
    HoldsPointwise(u, 0, MarkBytes(m));
    NoMatch(u, at, AVB_FOOTER_MAGIC, if u[at] != AVB_FOOTER_MAGIC[0] then 0 else 1);
  }

  lemma MatchInRest(pay: bytes, r: bytes, at: nat, piece: bytes)
    ensures MatchAt(pay + r, |pay| + at, piece) == MatchAt(r, at, piece)
  {
    var s := pay + r;
    if at + |piece| <= |r| { assert s[|pay| + at..|pay| + at + |piece|] == r[at..at + |piece|]; }
  }

  lemma HoldsInRest(pay: bytes, r: bytes, at: nat, piece: bytes)
    requires Holds(r, at, piece)
    ensures Holds(pay + r, |pay| + at, piece)
  {
    HoldsPointwise(r, at, piece);
    HoldsPointwise(pay + r, |pay| + at, piece);
  }

  /** What parsing must recover from the new tail, for a payload that ends at `|pay|`. */
  predicate Recovered(t: Tail, out: bytes, m: Marks, head: nat, payload: nat, page: nat)
    requires page > 0
  {
    && t.seandroid == m.seandroid && t.lgBump == (m.lgBump && !m.seandroid)
    && (m.vbmeta.None? ==> t.footer.None? && t.vbmeta.None?)
    && (m.vbmeta.Some? ==>
          var at := VbmetaAt(m, head, payload, page);
          && |out| >= FOOTER_SIZE && t.footer == Some(|out| - FOOTER_SIZE)
          && Big(out, |out| - FOOTER_SIZE + 12) == TotalAt(m, head, payload)
          && MatchAt(out, at, AVB_MAGIC)
          && t.vbmeta == (if MatchAt(out, head + at, AVB_MAGIC) then Some(head + at) else None)
          && (t.vbmeta == Some(at) <==> head == 0))
  }

  /**
   * Main result: parsing the repacked tail recovers the vendor mark; with a vbmeta it finds the
   * footer at the end and the recorded payload end, without one it finds none. The recorded vbmeta
   * offset counts from the start of the file but is followed from the payload's start, so the copied
   * vbmeta is found again exactly when no head stands in front.
   */
  lemma TailRecovered(pay: bytes, m: Marks, head: nat, page: nat, size: nat, patchFlags: bool)
    requires page > 0 && head <= |pay| && ValidMarks(m) && FooterFits(m, head, |pay| - head, page, size)
    requires VbmetaUsable(m, head, |pay| - head, page)
    requires var n := |Rest(m, head, |pay| - head, page, size, patchFlags)|; m.vbmeta.None? ==> n == 0 || n >= FOOTER_SIZE
    ensures var out := pay + Rest(m, head, |pay| - head, page, size, patchFlags);
            Recovered(ParseTail(out, head, |pay| - head), out, m, head, |pay| - head, page)
  {
    hide Unpatched, Rest, AlignTo, MarkBytes, Big, SEANDROID_MAGIC, LG_BUMP_MAGIC, AVB_FOOTER_MAGIC, AVB_MAGIC, VbmetaAt,
         TotalAt, FooterFits, VbmetaUsable, Unpatched;
    var r := Rest(m, head, |pay| - head, page, size, patchFlags);
    MarksRecovered(pay, m, head, page, size, patchFlags);
    if m.vbmeta.Some? {
      FooterRecovered(pay, m, head, page, size, patchFlags);
    } else if r != [] {
      NoFooterRecovered(pay, m, head, page, size, patchFlags);
    }
  }

  /** The vbmeta begins with its magic, and its offset and the payload's end fit 32 bits. */
  predicate VbmetaUsable(m: Marks, head: nat, payload: nat, page: nat)
    requires page > 0
  {
    m.vbmeta.Some? ==> StartsWith(m.vbmeta.value, AVB_MAGIC) && VbmetaAt(m, head, payload, page) < U32 && TotalAt(m, head, payload) < U32
  }

  lemma MarksRecovered(pay: bytes, m: Marks, head: nat, page: nat, size: nat, patchFlags: bool)
    requires page > 0 && head <= |pay| && ValidMarks(m) && FooterFits(m, head, |pay| - head, page, size)
    requires VbmetaUsable(m, head, |pay| - head, page)
    ensures var out := pay + Rest(m, head, |pay| - head, page, size, patchFlags);
            && (m.seandroid <==> |out| - |pay| >= 16 && MatchAt(out, |pay|, SEANDROID_MAGIC))
            && (!m.seandroid ==> (m.lgBump <==> |out| - |pay| >= 16 && MatchAt(out, |pay|, LG_BUMP_MAGIC)))
  {
    hide Unpatched, Rest, AlignTo, MarkBytes, FooterFits;
    var r := Rest(m, head, |pay| - head, page, size, patchFlags);
    MarksRead(m, head, |pay| - head, page, size, patchFlags);
    MatchInRest(pay, r, 0, SEANDROID_MAGIC);
    MatchInRest(pay, r, 0, LG_BUMP_MAGIC);
  }

  /** The new footer at the end of the image, and its fields. */
  predicate FooterFields(out: bytes, pay: nat, total: nat, at: nat) {
    && |out| >= pay + FOOTER_SIZE && MatchAt(out, |out| - FOOTER_SIZE, AVB_FOOTER_MAGIC)
    && Big(out, |out| - FOOTER_SIZE + 12) == total
    && Big(out, |out| - FOOTER_SIZE + 20) == at
  }

  /** And the start of the copied vbmeta. */
  predicate FooterThere(out: bytes, pay: nat, total: nat, at: nat) {
    FooterFields(out, pay, total, at) && MatchAt(out, at, AVB_MAGIC)
  }

  /** The fields of the footer at the end. */
  lemma FooterFound(pay: bytes, m: Marks, head: nat, page: nat, size: nat, patchFlags: bool)
    requires page > 0 && head <= |pay| && ValidMarks(m) && FooterFits(m, head, |pay| - head, page, size)
    requires VbmetaUsable(m, head, |pay| - head, page) && m.vbmeta.Some?
    ensures FooterFields(pay + Rest(m, head, |pay| - head, page, size, patchFlags), |pay|,
                         TotalAt(m, head, |pay| - head), VbmetaAt(m, head, |pay| - head, page))
  {
    hide Unpatched, Rest, AlignTo, MarkBytes, Big, NewFooter, AVB_FOOTER_MAGIC, AVB_MAGIC, FooterFits, TotalAt, VbmetaAt, Holds, MatchAt;
    var payload := |pay| - head;
    var r, at := Rest(m, head, payload, page, size, patchFlags), VbmetaAt(m, head, payload, page);
    RestParts(m, head, payload, page, size, patchFlags);
    UnpatchedParts(m, head, payload, page, size);
    HoldsInRest(pay, r, |r| - FOOTER_SIZE, NewFooter(m, TotalAt(m, head, payload), at));
    FooterReads(m, TotalAt(m, head, payload), at, pay + r, |pay + r| - FOOTER_SIZE);
  }

  /** The start of the copied vbmeta. */
  lemma VbmetaFound(pay: bytes, m: Marks, head: nat, page: nat, size: nat, patchFlags: bool)
    requires page > 0 && head <= |pay| && ValidMarks(m) && FooterFits(m, head, |pay| - head, page, size)
    requires VbmetaUsable(m, head, |pay| - head, page) && m.vbmeta.Some?
    ensures MatchAt(pay + Rest(m, head, |pay| - head, page, size, patchFlags), VbmetaAt(m, head, |pay| - head, page), AVB_MAGIC)
  {
    hide Unpatched, Rest, AlignTo, MarkBytes, NewFooter, AVB_MAGIC, FooterFits, TotalAt, VbmetaAt, Holds, MatchAt;
    var payload := |pay| - head;
    var u, r := Unpatched(m, head, payload, page, size), Rest(m, head, payload, page, size, patchFlags);
    var at := VbmetaAt(m, head, payload, page);
    UnpatchedParts(m, head, payload, page, size);
    RestParts(m, head, payload, page, size, patchFlags);
    VbmetaStarts(m, u, r, at - |pay|);
    MatchInRest(pay, r, at - |pay|, AVB_MAGIC);
  }

  lemma FooterRecovered(pay: bytes, m: Marks, head: nat, page: nat, size: nat, patchFlags: bool)
    requires page > 0 && head <= |pay| && ValidMarks(m) && FooterFits(m, head, |pay| - head, page, size)
    requires VbmetaUsable(m, head, |pay| - head, page) && m.vbmeta.Some?
    ensures FooterThere(pay + Rest(m, head, |pay| - head, page, size, patchFlags), |pay|,
                        TotalAt(m, head, |pay| - head), VbmetaAt(m, head, |pay| - head, page))
  {
    hide Rest, Big, AVB_FOOTER_MAGIC, AVB_MAGIC, FooterFits, TotalAt, VbmetaAt, MatchAt, VbmetaUsable, ValidMarks;
    FooterFound(pay, m, head, page, size, patchFlags);
    VbmetaFound(pay, m, head, page, size, patchFlags);
  }

  lemma NoFooterRecovered(pay: bytes, m: Marks, head: nat, page: nat, size: nat, patchFlags: bool)
    requires page > 0 && head <= |pay| && ValidMarks(m) && FooterFits(m, head, |pay| - head, page, size) && m.vbmeta.None?
    requires |Rest(m, head, |pay| - head, page, size, patchFlags)| >= FOOTER_SIZE
    ensures FooterOf(pay + Rest(m, head, |pay| - head, page, size, patchFlags)).None?
  {
    hide Unpatched, AlignTo;
    var r := Rest(m, head, |pay| - head, page, size, patchFlags);
    NoFooter(m, head, |pay| - head, page, size);
    MatchInRest(pay, r, |r| - FOOTER_SIZE, AVB_FOOTER_MAGIC);
  }

  lemma VbmetaStarts(m: Marks, u: bytes, r: bytes, at: nat)
    requires m.vbmeta.Some? && StartsWith(m.vbmeta.value, AVB_MAGIC) && Holds(u, at, m.vbmeta.value)
    requires |r| == |u| && at + VBMETA_FLAGS <= |u| && forall i :: 0 <= i < at + VBMETA_FLAGS ==> r[i] == u[i]
    ensures MatchAt(r, at, AVB_MAGIC)
  {
    HoldsPart(u, at, m.vbmeta.value, 0, 4);
    HoldsPointwise(u, at, AVB_MAGIC);
    HoldsPointwise(r, at, AVB_MAGIC);
  }

  /** The vbmeta stands at `at`; when its flags are patched they are 3, and only they differ. */
  predicate VbmetaStands(out: bytes, at: nat, vbmeta: bytes, patchFlags: bool) {
    && at + |vbmeta| <= |out|
    && (forall i :: 0 <= i < |vbmeta| && !(patchFlags && VBMETA_FLAGS <= i < VBMETA_FLAGS + 4) ==> out[at + i] == vbmeta[i])
    && (patchFlags ==> Holds(out, at + VBMETA_FLAGS, BE32(3)))
  }

  lemma VbmetaCopied(pay: bytes, m: Marks, head: nat, page: nat, size: nat, patchFlags: bool)
    requires page > 0 && head <= |pay| && ValidMarks(m) && FooterFits(m, head, |pay| - head, page, size) && m.vbmeta.Some?
    ensures VbmetaStands(pay + Rest(m, head, |pay| - head, page, size, patchFlags), VbmetaAt(m, head, |pay| - head, page),
                         m.vbmeta.value, patchFlags)
  {
    hide Unpatched, Rest, AlignTo, MarkBytes, BE32, NewFooter, VbmetaAt, Holds;
    var payload := |pay| - head;
    var r, at := Rest(m, head, payload, page, size, patchFlags), VbmetaAt(m, head, payload, page);
    VbmetaInRest(m, head, payload, page, size, patchFlags);
    var v := m.vbmeta.value;
    forall i | 0 <= i < |v| && !(patchFlags && VBMETA_FLAGS <= i < VBMETA_FLAGS + 4) ensures (pay + r)[at + i] == v[i] {
      assert (pay + r)[at + i] == r[at - |pay| + i];
    }
    if patchFlags { HoldsInRest(pay, r, at - |pay| + VBMETA_FLAGS, BE32(3)); }
  }

  lemma VbmetaInRest(m: Marks, head: nat, payload: nat, page: nat, size: nat, patchFlags: bool)
    requires page > 0 && ValidMarks(m) && FooterFits(m, head, payload, page, size) && m.vbmeta.Some?
    ensures VbmetaAt(m, head, payload, page) >= head + payload
    ensures VbmetaStands(Rest(m, head, payload, page, size, patchFlags), VbmetaAt(m, head, payload, page) - head - payload,
                         m.vbmeta.value, patchFlags)
  {
    hide Unpatched, Rest, AlignTo, MarkBytes, BE32, NewFooter, VbmetaAt;
    var u, at := Unpatched(m, head, payload, page, size), VbmetaAt(m, head, payload, page) - head - payload;
    UnpatchedParts(m, head, payload, page, size);
    RestParts(m, head, payload, page, size, patchFlags);
    HoldsPointwise(u, at, m.vbmeta.value);
    VbmetaInside(m, head, payload, page, size);
  }

  lemma VbmetaInside(m: Marks, head: nat, payload: nat, page: nat, size: nat)
    requires page > 0 && m.vbmeta.Some? && FooterFits(m, head, payload, page, size)
    ensures VbmetaAt(m, head, payload, page) + |m.vbmeta.value| + FOOTER_SIZE <= head + payload + |Unpatched(m, head, payload, page, size)|
  {
    hide Unpatched, VbmetaAt;
  }

  /** Except for ChromeOS images, the output is never shorter than the source. */
  lemma NeverShorter(pay: bytes, m: Marks, head: nat, page: nat, size: nat, patchFlags: bool)
    requires page > 0 && head <= |pay| && ValidMarks(m) && FooterFits(m, head, |pay| - head, page, size) && !m.chromeos
    ensures |pay + Rest(m, head, |pay| - head, page, size, patchFlags)| >= size
  {
    hide Unpatched, Rest, AlignTo, MarkBytes;
    UnpatchedParts(m, head, |pay| - head, page, size);
    RestParts(m, head, |pay| - head, page, size, patchFlags);
  }
}
