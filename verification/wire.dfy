// The VBus v1 telegram: its wire format, its decoder and the reference encoder.
module Wire {
  import opened Bytes

  const SYNC: byte := 0xAA
  const VERSION1: byte := 0x10
  const HEADER: nat := 10
  const BLOCK: nat := 6

  datatype Frame = Frame(destination: u16, source: u16, command: u16, payload: seq<byte>)

  // ---- Sub-frames ------------------------------------------------------------------------------

  /** Sub-frame k of a run of sub-frames: four data bytes, the septett byte, the checksum. */
  function Block(data: seq<byte>, k: nat): (b: seq<byte>)
    requires BLOCK * (k + 1) <= |data|
    ensures |b| == BLOCK
  {
    data[BLOCK * k..BLOCK * k + BLOCK]
  }

  predicate BlockOk(b: seq<byte>)
    requires |b| == BLOCK
  {
    b[5] == Checksum(b[..5])
  }

  predicate BlocksOk(data: seq<byte>) {
    forall k | 0 <= k < |data| / BLOCK :: BlockOk(Block(data, k))
  }

  /** Data byte j with its bit 7 restored from the septett byte. */
  function Restore(b: byte, septett: byte, j: int): byte {
    if BitSet(septett, j) then WithBit7(b) else b
  }

  function DecodeBlock(b: seq<byte>): (p: seq<byte>)
    requires |b| == BLOCK
  {
    [Restore(b[0], b[4], 0), Restore(b[1], b[4], 1), Restore(b[2], b[4], 2), Restore(b[3], b[4], 3)]
  }

  lemma Shrinks(n: nat, unit: nat)
    requires unit in {4, BLOCK} && n % unit == 0 && n > 0
    ensures n >= unit && (n - unit) % unit == 0
  {
  }

  lemma Grows(n: nat, unit: nat)
    requires unit in {4, BLOCK} && n % unit == 0
    ensures (n + unit) % unit == 0
  {
  }

  function DecodeBlocks(data: seq<byte>): (p: seq<byte>)
    requires |data| % BLOCK == 0
    ensures |p| % 4 == 0 && 3 * |p| == 2 * |data|
  {
    if data == [] then []
    else
      Shrinks(|data|, BLOCK);
      var front := DecodeBlocks(data[..|data| - BLOCK]);
      Grows(|front|, 4);
      front + DecodeBlock(data[|data| - BLOCK..])
  }

  function Septett(p: seq<byte>): byte
    requires |p| == 4
  {
    Bit7(p[0]) + 2 * Bit7(p[1]) + 4 * Bit7(p[2]) + 8 * Bit7(p[3])
  }

  function EncodeBlock(p: seq<byte>): (b: seq<byte>)
    requires |p| == 4
    ensures |b| == BLOCK
  {
    var body := [Low7(p[0]), Low7(p[1]), Low7(p[2]), Low7(p[3]), Septett(p)];
    body + [Checksum(body)]
  }

  function EncodeBlocks(p: seq<byte>): (data: seq<byte>)
    requires |p| % 4 == 0
    ensures |data| % BLOCK == 0 && 2 * |data| == 3 * |p|
  {
    if p == [] then []
    else
      Shrinks(|p|, 4);
      var front := EncodeBlocks(p[..|p| - 4]);
      Grows(|front|, BLOCK);
      front + EncodeBlock(p[|p| - 4..])
  }

  lemma DecodeBlocksSnoc(front: seq<byte>, last: seq<byte>)
    requires |front| % BLOCK == 0 && |last| == BLOCK
    ensures DecodeBlocks(front + last) == DecodeBlocks(front) + DecodeBlock(last)
  {
    var data := front + last;
    assert data[..|data| - BLOCK] == front && data[|data| - BLOCK..] == last;
  }

  lemma EncodeBlocksSnoc(front: seq<byte>, last: seq<byte>)
    requires |front| % 4 == 0 && |last| == 4
    ensures EncodeBlocks(front + last) == EncodeBlocks(front) + EncodeBlock(last)
  {
    var p := front + last;
    assert p[..|p| - 4] == front && p[|p| - 4..] == last;
  }

  lemma BlockSnoc(front: seq<byte>, last: seq<byte>, k: nat)
    requires |front| % BLOCK == 0 && |last| == BLOCK && k <= |front| / BLOCK
    ensures BLOCK * (k + 1) <= |front + last|
    ensures Block(front + last, k) == if k < |front| / BLOCK then Block(front, k) else last
  {
  }

  lemma BlocksOkSnoc(front: seq<byte>, last: seq<byte>)
    requires |front| % BLOCK == 0 && |last| == BLOCK
    ensures BlocksOk(front + last) <==> BlocksOk(front) && BlockOk(last)
  {
    var n := |front| / BLOCK;
    forall k | 0 <= k <= n
      ensures BLOCK * (k + 1) <= |front + last|
      ensures Block(front + last, k) == if k < n then Block(front, k) else last
    {
      BlockSnoc(front, last, k);
    }
    if BlocksOk(front + last) {
      forall k | 0 <= k < n
        ensures BlockOk(Block(front, k))
      {
        assert BlockOk(Block(front + last, k));
      }
      assert BlockOk(Block(front + last, n));
    }
  }

  lemma SeptettBits(p: seq<byte>)
    requires |p| == 4
    ensures forall j | 0 <= j < 4 :: BitSet(Septett(p), j) <==> p[j] >= 0x80
  {
    var s := Septett(p);
    assert BitSet(s, 0) <==> p[0] >= 0x80;
    assert BitSet(s, 1) <==> p[1] >= 0x80;
    assert BitSet(s, 2) <==> p[2] >= 0x80;
    assert BitSet(s, 3) <==> p[3] >= 0x80;
  }

  lemma RestoresLow(b: byte, septett: byte, j: int)
    requires BitSet(septett, j) <==> b >= 0x80
    ensures Restore(Low7(b), septett, j) == b
  {
    hide BitSet;
  }

  lemma EncodeBlockIs(p: seq<byte>)
    requires |p| == 4
    ensures EncodeBlock(p)[..5] == [Low7(p[0]), Low7(p[1]), Low7(p[2]), Low7(p[3]), Septett(p)]
    ensures BlockOk(EncodeBlock(p))
  {
    hide Low7, Septett, Checksum;
    var body := [Low7(p[0]), Low7(p[1]), Low7(p[2]), Low7(p[3]), Septett(p)];
    assert EncodeBlock(p)[..5] == body;
  }

  lemma DecodeEncodeBlock(p: seq<byte>)
    requires |p| == 4
    ensures DecodeBlock(EncodeBlock(p)) == p && BlockOk(EncodeBlock(p))
  {
    hide Low7, Septett, EncodeBlock, BlockOk, BitSet, Restore;
    var b := EncodeBlock(p);
    EncodeBlockIs(p);
    SeptettBits(p);
    assert forall j | 0 <= j < 5 :: b[j] == b[..5][j];
    RestoresLow(p[0], b[4], 0);
    RestoresLow(p[1], b[4], 1);
    RestoresLow(p[2], b[4], 2);
    RestoresLow(p[3], b[4], 3);
  }

  /** Septett decoding undoes septett encoding on every payload, and the encoder's checksums are good. */
  lemma {:induction false} DecodeEncodeBlocks(p: seq<byte>)
    requires |p| % 4 == 0
    ensures BlocksOk(EncodeBlocks(p))
    ensures DecodeBlocks(EncodeBlocks(p)) == p
  {
    if p != [] {
      var front, last := p[..|p| - 4], p[|p| - 4..];
      assert p == front + last;
      DecodeEncodeBlocks(front);
      DecodeEncodeBlock(last);
      DecodeBlocksSnoc(EncodeBlocks(front), EncodeBlock(last));
      BlocksOkSnoc(EncodeBlocks(front), EncodeBlock(last));
    }
  }

  /** Everything the encoder emits after the header has bit 7 clear. */
  lemma {:induction false} EncodedBit7Clear(p: seq<byte>)
    requires |p| % 4 == 0
    ensures forall b | b in EncodeBlocks(p) :: b < 0x80
  {
    if p != [] {
      EncodedBit7Clear(p[..|p| - 4]);
    }
  }

  // ---- Canonical sub-frames ----------------------------------------------------------------------

  /** Bit 7 clear in every data byte and no bit above bit 3 in the septett byte. The decoder does not check this. */
  predicate CanonicalBlock(b: seq<byte>)
    requires |b| == BLOCK
  {
    b[0] < 0x80 && b[1] < 0x80 && b[2] < 0x80 && b[3] < 0x80 && b[4] < 0x10
  }

  predicate CanonicalBlocks(data: seq<byte>) {
    forall k | 0 <= k < |data| / BLOCK :: CanonicalBlock(Block(data, k))
  }

  lemma CanonicalBlocksSnoc(front: seq<byte>, last: seq<byte>)
    requires |front| % BLOCK == 0 && |last| == BLOCK
    ensures CanonicalBlocks(front + last) <==> CanonicalBlocks(front) && CanonicalBlock(last)
  {
    var n := |front| / BLOCK;
    forall k | 0 <= k <= n
      ensures BLOCK * (k + 1) <= |front + last|
      ensures Block(front + last, k) == if k < n then Block(front, k) else last
    {
      BlockSnoc(front, last, k);
    }
    if CanonicalBlocks(front + last) {
      forall k | 0 <= k < n
        ensures CanonicalBlock(Block(front, k))
      {
        assert CanonicalBlock(Block(front + last, k));
      }
      assert CanonicalBlock(Block(front + last, n));
    }
  }

  lemma LowRestored(b: byte, septett: byte, j: int)
    ensures Low7(Restore(b, septett, j)) == Low7(b)
    ensures b < 0x80 ==> Low7(b) == b
    ensures Low7(b) == b ==> b < 0x80
    ensures b < 0x80 ==> Bit7(Restore(b, septett, j)) == Digit(septett, j)
  {
    hide BitSet;
  }

  lemma DecodedSeptett(b: seq<byte>)
    requires |b| == BLOCK
    ensures Septett(DecodeBlock(b)) < 0x10
    ensures CanonicalBlock(b) ==> Septett(DecodeBlock(b)) == b[4]
  {
    LowRestored(b[0], b[4], 0);
    LowRestored(b[1], b[4], 1);
    LowRestored(b[2], b[4], 2);
    LowRestored(b[3], b[4], 3);
    LowDigits(b[4]);
    hide Low7, Digit, Restore;
  }

  /** The first five bytes of a re-encoded sub-frame. */
  lemma ReencodedBody(b: seq<byte>)
    requires |b| == BLOCK
    ensures EncodeBlock(DecodeBlock(b))[..5] ==
            [Low7(b[0]), Low7(b[1]), Low7(b[2]), Low7(b[3]), Septett(DecodeBlock(b))]
  {
    EncodeBlockIs(DecodeBlock(b));
    LowRestored(b[0], b[4], 0);
    LowRestored(b[1], b[4], 1);
    LowRestored(b[2], b[4], 2);
    LowRestored(b[3], b[4], 3);
    hide Low7, Bit7, Digit, Restore, Septett, EncodeBlock;
  }

  lemma EncodeDecodeBlock(b: seq<byte>)
    requires |b| == BLOCK && BlockOk(b)
    ensures EncodeBlock(DecodeBlock(b)) == b <==> CanonicalBlock(b)
  {
    var e := EncodeBlock(DecodeBlock(b));
    EncodeBlockIs(DecodeBlock(b));
    ReencodedBody(b);
    DecodedSeptett(b);
    hide Septett, Checksum, EncodeBlock, DecodeBlock;
    assert e == e[..5] + [e[5]] && b == b[..5] + [b[5]];
    assert b[..5] == [b[0], b[1], b[2], b[3], b[4]];
  }

  /** Re-encoding what was decoded gives back the received bytes exactly when they were canonical. */
  lemma {:induction false} EncodeDecodeBlocks(data: seq<byte>)
    requires |data| % BLOCK == 0 && BlocksOk(data)
    ensures EncodeBlocks(DecodeBlocks(data)) == data <==> CanonicalBlocks(data)
  {
    if data != [] {
      var front, last := data[..|data| - BLOCK], data[|data| - BLOCK..];
      assert data == front + last;
      BlocksOkSnoc(front, last);
      CanonicalBlocksSnoc(front, last);
      EncodeDecodeBlocks(front);
      EncodeDecodeBlock(last);
      var pf, pl := DecodeBlocks(front), DecodeBlock(last);
      assert DecodeBlocks(data) == pf + pl by { DecodeBlocksSnoc(front, last); }
      assert EncodeBlocks(pf + pl) == EncodeBlocks(pf) + EncodeBlock(pl) by { EncodeBlocksSnoc(pf, pl); }
      AppendInjective(EncodeBlocks(pf), EncodeBlock(pl), front, last);
    }
  }

  lemma AppendInjective(a: seq<byte>, b: seq<byte>, c: seq<byte>, d: seq<byte>)
    requires |a| == |c|
    ensures a + b == c + d <==> a == c && b == d
  {
    if a + b == c + d {
      assert (a + b)[..|a|] == a && (c + d)[..|a|] == c;
      assert (a + b)[|a|..] == b && (c + d)[|a|..] == d;
    }
  }

  // ---- Telegrams ---------------------------------------------------------------------------------

  /** SYNC, version 1 and a good header checksum. */
  predicate HeaderOk(w: seq<byte>) {
    |w| >= HEADER && w[0] == SYNC && w[5] == VERSION1 && w[9] == Checksum(w[1..9])
  }

  /** The telegram length that a header announces. */
  function Announced(w: seq<byte>): (n: nat)
    requires |w| >= HEADER
    ensures HEADER <= n <= HEADER + BLOCK * 255
  {
    HEADER + BLOCK * w[8]
  }

  predicate WellFormed(w: seq<byte>) {
    HeaderOk(w) && |w| == Announced(w) && BlocksOk(w[HEADER..])
  }

  function Decoded(w: seq<byte>): (f: Frame)
    requires WellFormed(w)
    ensures |w| == HEADER + 3 * |f.payload| / 2
  {
    Frame(Le16(w[1], w[2]), Le16(w[3], w[4]), Le16(w[6], w[7]), DecodeBlocks(w[HEADER..]))
  }

  /** Zero bytes up to the next multiple of four. */
  function Padded(p: seq<byte>): (q: seq<byte>)
    ensures |q| % 4 == 0 && |p| <= |q| < |p| + 4
    ensures p <= q && (|p| % 4 == 0 ==> q == p)
  {
    match |p| % 4
    case 0 => p
    case 1 => p + [0, 0, 0]
    case 2 => p + [0, 0]
    case _ => p + [0]
  }

  /** The number of sub-frames the encoder uses. */
  lemma PaddedWithZeros(p: seq<byte>)
    ensures forall i | 0 <= i < |Padded(p)| :: Padded(p)[i] == if i < |p| then p[i] else 0
  {
  }

  function BlockCount(p: seq<byte>): nat { (|p| + 3) / 4 }

  lemma BlockCountPadded(p: seq<byte>)
    ensures 4 * BlockCount(p) == |Padded(p)|
  {
  }

  /** The header for a payload of n sub-frames; the count is truncated to a byte. */
  function EncodeHeader(dst: u16, src: u16, cmd: u16, n: nat): (h: seq<byte>)
    ensures |h| == HEADER && HeaderOk(h)
  {
    var covered: seq<byte> :=
      [LoByte(dst), HiByte(dst), LoByte(src), HiByte(src), VERSION1, LoByte(cmd), HiByte(cmd), n % 0x100];
    var h := [SYNC] + covered + [Checksum(covered)];
    assert h[1..9] == covered;
    h
  }

  function Encode(dst: u16, src: u16, cmd: u16, payload: seq<byte>): (w: seq<byte>) {
    EncodeHeader(dst, src, cmd, BlockCount(payload)) + EncodeBlocks(Padded(payload))
  }

  function EncodeFrame(f: Frame): seq<byte> {
    Encode(f.destination, f.source, f.command, f.payload)
  }

  lemma HeaderExtends(h: seq<byte>, t: seq<byte>)
    requires |h| >= HEADER
    ensures HeaderOk(h + t) <==> HeaderOk(h)
    ensures Announced(h + t) == Announced(h)
  {
    assert (h + t)[1..9] == h[1..9];
  }

  /** A header followed by as many sub-frames as it announces. */
  lemma Assembled(h: seq<byte>, d: seq<byte>)
    requires |h| == HEADER && HeaderOk(h) && |d| == BLOCK * h[8] && BlocksOk(d)
    ensures WellFormed(h + d)
    ensures Decoded(h + d) == Frame(Le16(h[1], h[2]), Le16(h[3], h[4]), Le16(h[6], h[7]), DecodeBlocks(d))
  {
    HeaderExtends(h, d);
    assert (h + d)[HEADER..] == d;
  }

  lemma EncodedHeader(dst: u16, src: u16, cmd: u16, n: nat)
    ensures var h := EncodeHeader(dst, src, cmd, n);
      h[8] == n % 0x100 && Le16(h[1], h[2]) == dst && Le16(h[3], h[4]) == src && Le16(h[6], h[7]) == cmd
  {
    Le16Bytes(dst);
    Le16Bytes(src);
    Le16Bytes(cmd);
  }

  lemma EncodeFrameIs(f: Frame)
    ensures EncodeFrame(f) ==
            EncodeHeader(f.destination, f.source, f.command, BlockCount(f.payload)) + EncodeBlocks(Padded(f.payload))
    ensures |EncodeBlocks(Padded(f.payload))| == BLOCK * BlockCount(f.payload)
  {
    BlockCountPadded(f.payload);
  }

  /** Up to 255 sub-frames, encoding and then decoding gives the frame back with its payload zero-padded. */
  lemma DecodeEncode(f: Frame)
    requires |f.payload| <= 4 * 255
    ensures WellFormed(EncodeFrame(f))
    ensures Decoded(EncodeFrame(f)) == f.(payload := Padded(f.payload))
  {
    assert BlockCount(f.payload) % 0x100 == BlockCount(f.payload);
    hide *;
    EncodeFrameIs(f);
    EncodedHeader(f.destination, f.source, f.command, BlockCount(f.payload));
    DecodeEncodeBlocks(Padded(f.payload));
    Assembled(EncodeHeader(f.destination, f.source, f.command, BlockCount(f.payload)), EncodeBlocks(Padded(f.payload)));
  }

  /** Every data byte and septett byte of the telegram is canonical. */
  predicate Canonical(w: seq<byte>) {
    |w| >= HEADER && CanonicalBlocks(w[HEADER..])
  }

  /** The encoder rebuilds any good header from its decoded fields. */
  lemma HeaderRebuilt(w: seq<byte>)
    requires HeaderOk(w)
    ensures EncodeHeader(Le16(w[1], w[2]), Le16(w[3], w[4]), Le16(w[6], w[7]), w[8]) == w[..HEADER]
  {
    var covered := w[1..9];
    assert covered == [w[1], w[2], w[3], w[4], w[5], w[6], w[7], w[8]];
    Le16Split(w[1], w[2]);
    Le16Split(w[3], w[4]);
    Le16Split(w[6], w[7]);
    assert w[..HEADER] == [SYNC] + covered + [w[9]];
  }

  lemma SixTimes(n: nat)
    ensures (BLOCK * n) % BLOCK == 0
  {
  }

  lemma FourTimes(n: nat)
    ensures (4 * n) % 4 == 0
  {
  }

  lemma RoundedUp(n: nat)
    ensures (4 * n + 3) / 4 == n
  {
  }

  lemma CountOfWhole(p: seq<byte>, n: nat)
    requires |p| == 4 * n
    ensures BlockCount(p) == n && Padded(p) == p
  {
    FourTimes(n);
    RoundedUp(n);
    hide Padded;
  }

  lemma DecodedLength(d: seq<byte>, n: nat)
    requires |d| == BLOCK * n && |d| % BLOCK == 0
    ensures |DecodeBlocks(d)| == 4 * n
  {
    hide DecodeBlocks;
  }

  lemma DecodedCount(d: seq<byte>, n: nat)
    requires |d| == BLOCK * n
    ensures |d| % BLOCK == 0
    ensures BlockCount(DecodeBlocks(d)) == n && Padded(DecodeBlocks(d)) == DecodeBlocks(d)
  {
    SixTimes(n);
    hide *;
    DecodedLength(d, n);
    CountOfWhole(DecodeBlocks(d), n);
  }

  lemma HeaderKept(h: seq<byte>)
    requires |h| == HEADER && HeaderOk(h)
    ensures EncodeHeader(Le16(h[1], h[2]), Le16(h[3], h[4]), Le16(h[6], h[7]), h[8]) == h
  {
    hide *;
    HeaderRebuilt(h);
    assert h[..HEADER] == h;
  }

  /** Encoding what was decoded: the header as it was, and the re-encoded sub-frames. */
  lemma Reencoded(h: seq<byte>, d: seq<byte>)
    requires |h| == HEADER && HeaderOk(h) && |d| == BLOCK * h[8]
    ensures EncodeFrame(Frame(Le16(h[1], h[2]), Le16(h[3], h[4]), Le16(h[6], h[7]), DecodeBlocks(d)))
         == h + EncodeBlocks(DecodeBlocks(d))
  {
    assert |h| > 8;
    hide *;
    DecodedCount(d, h[8]);
    HeaderKept(h);
    EncodeFrameIs(Frame(Le16(h[1], h[2]), Le16(h[3], h[4]), Le16(h[6], h[7]), DecodeBlocks(d)));
  }

  /** The header and the sub-frames of a telegram. */
  lemma Taken(w: seq<byte>) returns (h: seq<byte>, d: seq<byte>)
    requires WellFormed(w)
    ensures w == h + d && |h| == HEADER && HeaderOk(h) && |d| == BLOCK * h[8] && BlocksOk(d)
    ensures Canonical(w) <==> CanonicalBlocks(d)
  {
    h, d := w[..HEADER], w[HEADER..];
    assert h[1..9] == w[1..9];
    hide BlocksOk, CanonicalBlocks, Checksum;
  }

  /** A received telegram is the encoding of the frame decoded from it exactly when it is canonical. */
  lemma EncodeDecode(w: seq<byte>)
    requires WellFormed(w)
    ensures EncodeFrame(Decoded(w)) == w <==> Canonical(w)
  {
    hide *;
    var h, d := Taken(w);
    Assembled(h, d);
    Reencoded(h, d);
    EncodeDecodeBlocks(d);
    AppendInjective(h, EncodeBlocks(DecodeBlocks(d)), h, d);
  }

  /** Decoding is injective on canonical telegrams. */
  lemma CanonicalInjective(v: seq<byte>, w: seq<byte>)
    requires WellFormed(v) && WellFormed(w) && Canonical(v) && Canonical(w)
    requires Decoded(v) == Decoded(w)
    ensures v == w
  {
    EncodeDecode(v);
    EncodeDecode(w);
  }
}
