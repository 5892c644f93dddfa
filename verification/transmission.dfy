// What survives a noisy line: transparent pieces, contained faults, and the stream round trip.
module Transmission {
  import opened Bytes
  import opened Wire
  import opened Scanner
  import opened VBusParser

  // ---- Transparent pieces ------------------------------------------------------------------------

  /** Whatever follows g is read as if g had not been there. */
  ghost predicate Transparent(g: seq<byte>) {
    forall t :: Output(g + t) == Output(g) + Output(t) && Rest(g + t) == Rest(t)
  }

  /** A piece leaves every later stream untouched exactly when the parser retains nothing after it. */
  lemma TransparentIff(g: seq<byte>)
    ensures Transparent(g) <==> Rest(g) == []
  {
    if Rest(g) == [] {
      forall t
        ensures Output(g + t) == Output(g) + Output(t) && Rest(g + t) == Rest(t)
      {
        OutputResumes(g, t);
        assert [] + t == t;
      }
    }
    if Transparent(g) {
      assert Rest(g + []) == Rest([]);
      assert g + [] == g;
    }
  }

  // ---- Pieces that the parser gets over ----------------------------------------------------------

  /** Bytes without SYNC are dropped without trace. */
  lemma SyncFreeSkipped(g: seq<byte>)
    requires SYNC !in g
    ensures Output(g) == [] && Rest(g) == []
  {
    assert g[..|g|] == g && g[|g|..] == [];
    ScanSkipsToSync(g, |g|);
  }

  lemma TelegramRead(w: seq<byte>)
    requires WellFormed(w)
    ensures Output(w) == [Decoded(w)] && Rest(w) == []
  {
    assert w[..|w|] == w && w[|w|..] == [];
    TelegramPrefix(w);
    ScanAccepts(w);
  }

  /** A rejected head followed by SYNC-free bytes is dropped as a whole. */
  lemma RejectedSkipped(t: seq<byte>)
    requires !Pending(t) && !StartsTelegram(t) && SYNC !in t[1..]
    ensures Output(t) == [] && Rest(t) == []
  {
    ScanRejects(t);
    SyncFreeSkipped(t[1..]);
  }

  /** Bit 7 clear everywhere but in the leading SYNC, as the protocol prescribes. */
  predicate Clean(w: seq<byte>) {
    forall i | 1 <= i < |w| :: w[i] < 0x80
  }

  predicate CleanWord(x: u16) { LoByte(x) < 0x80 && HiByte(x) < 0x80 }

  lemma CleanHeader(dst: u16, src: u16, cmd: u16, n: nat)
    ensures Clean(EncodeHeader(dst, src, cmd, n)) <==>
            CleanWord(dst) && CleanWord(src) && CleanWord(cmd) && n % 0x100 < 0x80
  {
    var h := EncodeHeader(dst, src, cmd, n);
    hide LoByte, HiByte, Checksum;
    if Clean(h) {
      assert h[1] < 0x80 && h[2] < 0x80 && h[3] < 0x80 && h[4] < 0x80 && h[6] < 0x80 && h[7] < 0x80 && h[8] < 0x80;
    }
  }

  /** An encoded frame is clean exactly when its addresses, its command and its sub-frame count are. */
  lemma EncodedCleanIff(f: Frame)
    ensures Clean(EncodeFrame(f)) <==>
            && CleanWord(f.destination) && CleanWord(f.source) && CleanWord(f.command)
            && BlockCount(f.payload) % 0x100 < 0x80
  {
    EncodeFrameIs(f);
    EncodedBit7Clear(Padded(f.payload));
    hide *;
    CleanHeader(f.destination, f.source, f.command, BlockCount(f.payload));
    CleanAppend(EncodeHeader(f.destination, f.source, f.command, BlockCount(f.payload)),
                EncodeBlocks(Padded(f.payload)));
  }

  lemma CleanAppend(h: seq<byte>, d: seq<byte>)
    requires h != [] && forall b | b in d :: b < 0x80
    ensures Clean(h + d) <==> Clean(h)
  {
    if Clean(h + d) {
      assert forall i | 1 <= i < |h| :: h[i] == (h + d)[i];
    }
    if Clean(h) {
      forall i | 1 <= i < |h + d|
        ensures (h + d)[i] < 0x80
      {
        assert i >= |h| ==> (h + d)[i] in d;
      }
    }
  }

  /** The checks see a byte of a telegram replaced: SYNC, the version and the checksums whatever the new value, any
      other byte through its low seven bits. */
  predicate Detected(w: seq<byte>, i: nat, v: byte)
    requires i < |w|
  {
    i == 0 || i == 5 || i == 9 || (i >= HEADER && (i - HEADER) % BLOCK == 5) || Low7(v) != Low7(w[i])
  }

  lemma HeaderChecksumFault(w: seq<byte>, i: nat, v: byte)
    requires |w| >= HEADER && 1 <= i < 9
    ensures Checksum(w[i := v][1..9]) == Checksum(w[1..9]) <==> Low7(v) == Low7(w[i])
  {
    assert w[i := v][1..9] == w[1..9][i - 1 := v];
    ChecksumSensitive(w[1..9], i - 1, v);
  }

  lemma HeaderFaultIff(w: seq<byte>, i: nat, v: byte)
    requires HeaderOk(w) && 1 <= i < HEADER && v != w[i]
    ensures !HeaderOk(w[i := v]) <==> Detected(w, i, v)
  {
    if i < 9 {
      HeaderChecksumFault(w, i, v);
    } else {
      assert w[i := v][1..9] == w[1..9];
    }
  }

  lemma BlockFaultIff(b: seq<byte>, i: nat, v: byte)
    requires |b| == BLOCK && BlockOk(b) && i < BLOCK && v != b[i]
    ensures !BlockOk(b[i := v]) <==> i == 5 || Low7(v) != Low7(b[i])
  {
    if i < 5 {
      assert b[i := v][..5] == b[..5][i := v];
      ChecksumSensitive(b[..5], i, v);
    } else {
      assert b[i := v][..5] == b[..5];
    }
  }

  lemma BlockOfUpdate(data: seq<byte>, i: nat, v: byte, k: nat)
    requires i < |data| && k < |data| / BLOCK
    ensures Block(data[i := v], k) ==
      if k == i / BLOCK then Block(data, k)[i - BLOCK * k := v] else Block(data, k)
  {
  }

  lemma SubFrameFaultIff(data: seq<byte>, i: nat, v: byte)
    requires |data| % BLOCK == 0 && BlocksOk(data) && i < |data| && v != data[i]
    ensures !BlocksOk(data[i := v]) <==> i % BLOCK == 5 || Low7(v) != Low7(data[i])
  {
    var k, u := i / BLOCK, data[i := v];
    assert BlockOk(Block(data, k));
    BlockOfUpdate(data, i, v, k);
    BlockFaultIff(Block(data, k), i - BLOCK * k, v);
    if BlockOk(Block(u, k)) {
      forall j | 0 <= j < |u| / BLOCK
        ensures BlockOk(Block(u, j))
      {
        assert BlockOk(Block(data, j));
        BlockOfUpdate(data, i, v, j);
      }
    }
  }

  /** A well-formed telegram stays well formed under a byte change past SYNC and off the count byte exactly when the
      change goes undetected. */
  lemma StillWellFormedIff(w: seq<byte>, i: nat, v: byte)
    requires WellFormed(w) && 1 <= i < |w| && i != 8 && v != w[i]
    ensures WellFormed(w[i := v]) <==> !Detected(w, i, v)
  {
    var u := w[i := v];
    if i < HEADER {
      HeaderFaultIff(w, i, v);
      assert u[HEADER..] == w[HEADER..];
    } else {
      SubFrameFaultIff(w[HEADER..], i - HEADER, v);
      assert u[HEADER..] == w[HEADER..][i - HEADER := v];
      assert u[1..9] == w[1..9];
    }
  }

  /** A wrong count byte is noticed as a bad header checksum, or makes the parser wait for more sub-frames. */
  lemma CountFault(w: seq<byte>, v: byte)
    requires WellFormed(w) && w[8] < 0x80 && v != w[8]
    ensures Detected(w, 8, v) ==> !HeaderOk(w[8 := v])
    ensures !Detected(w, 8, v) ==> Pending(w[8 := v])
  {
    HeaderFaultIff(w, 8, v);
  }

  /** What a false SYNC in the middle heads is rejected at once: it neither makes the parser wait nor is a telegram. */
  predicate HeadsNothing(u: seq<byte>, i: nat)
    requires i < |u|
  {
    !Pending(u[i..]) && !StartsTelegram(u[i..])
  }

  /** A change of one byte is noticed, and if it makes a SYNC, that SYNC heads nothing. */
  predicate Contained(w: seq<byte>, i: nat, v: byte)
    requires i < |w|
  {
    Detected(w, i, v) && (v == SYNC ==> HeadsNothing(w[i := v], i))
  }

  /** With a byte changed detectably, a telegram is rejected at its first byte. */
  lemma FaultRejected(w: seq<byte>, i: nat, v: byte)
    requires WellFormed(w) && 1 <= i < |w| && v != w[i] && Detected(w, i, v)
    ensures !Pending(w[i := v]) && !StartsTelegram(w[i := v])
  {
    var u := w[i := v];
    if i < HEADER {
      HeaderFaultIff(w, i, v);
    } else {
      StillWellFormedIff(w, i, v);
      assert u[1..9] == w[1..9];
      assert u[..Announced(u)] == u;
      TelegramPrefix(u);
    }
  }

  /** A clean telegram with one byte changed detectably to SYNC is read as what begins at that byte. */
  lemma FalseSyncRead(w: seq<byte>, i: nat)
    requires WellFormed(w) && Clean(w) && 1 <= i < |w| && Detected(w, i, SYNC)
    ensures var u := w[i := SYNC]; Output(u) == Output(u[i..]) && Rest(u) == Rest(u[i..])
  {
    var u := w[i := SYNC];
    assert SYNC !in u[1..][..i - 1];
    assert u[1..][i - 1..] == u[i..];
    FaultRejected(w, i, SYNC);
    hide *;
    ScanRejects(u);
    ScanSkipsToSync(u[1..], i - 1);
  }

  lemma FalseSyncIff(w: seq<byte>, i: nat)
    requires WellFormed(w) && Clean(w) && 1 <= i < |w| && Detected(w, i, SYNC)
    ensures var u := w[i := SYNC]; Output(u) == [] && Rest(u) == [] <==> HeadsNothing(u, i)
  {
    var t := w[i := SYNC][i..];
    FalseSyncRead(w, i);
    if Pending(t) {
      ScanWaits(t);
    } else if StartsTelegram(t) {
      ScanAccepts(t);
    } else {
      RejectedSkipped(t);
    }
  }

  lemma FaultSkipped(w: seq<byte>, i: nat, v: byte)
    requires WellFormed(w) && Clean(w) && i < |w| && v != w[i] && Contained(w, i, v)
    ensures Output(w[i := v]) == [] && Rest(w[i := v]) == []
  {
    var u := w[i := v];
    if i == 0 {
      assert u == [v] + u[1..];
      SyncFreeSkipped(u);
    } else if v == SYNC {
      FalseSyncIff(w, i);
    } else {
      assert SYNC !in u[1..];
      FaultRejected(w, i, v);
      RejectedSkipped(u);
    }
  }

  /** Of a clean telegram with one byte replaced, no trace remains exactly when the change is detectable and makes no
      SYNC that heads something. A SYNC that does is where reading goes on; an undetected change is delivered with the
      wrong byte, or the wrong count makes the parser wait. */
  lemma FaultSkippedIff(w: seq<byte>, i: nat, v: byte)
    requires WellFormed(w) && Clean(w) && i < |w| && v != w[i]
    ensures Output(w[i := v]) == [] && Rest(w[i := v]) == [] <==> Contained(w, i, v)
    ensures Detected(w, i, v) && v == SYNC ==>
      Output(w[i := v]) == Output(w[i := v][i..]) && Rest(w[i := v]) == Rest(w[i := v][i..])
    ensures !Detected(w, i, v) ==>
      if i == 8 then Rest(w[i := v]) == w[i := v]
      else WellFormed(w[i := v]) && Output(w[i := v]) == [Decoded(w[i := v])]
  {
    if Contained(w, i, v) {
      FaultSkipped(w, i, v);
    }
    if !Detected(w, i, v) {
      if i == 8 {
        CountFault(w, v);
        ScanWaits(w[i := v]);
      } else {
        StillWellFormedIff(w, i, v);
        TelegramRead(w[i := v]);
      }
    } else if v == SYNC {
      FalseSyncRead(w, i);
      FalseSyncIff(w, i);
    }
  }

  // ---- A whole transmission ----------------------------------------------------------------------

  /** What may happen on the line, piece by piece. */
  datatype Item =
    | Noise(bytes: seq<byte>)
    | Intact(telegram: seq<byte>)
    | Faulty(sent: seq<byte>, at: nat, value: byte)
  {
    predicate Ok() {
      match this
      case Noise(g) => SYNC !in g
      case Intact(w) => WellFormed(w)
      case Faulty(w, i, v) =>
        WellFormed(w) && Clean(w) && i < |w| && v != w[i] && Contained(w, i, v)
    }

    /** As Ok, with the faults that leave bit 7 clear. */
    predicate SevenBit() {
      match this
      case Faulty(w, i, v) => WellFormed(w) && Clean(w) && i < |w| && v < 0x80 && v != w[i]
      case _ => Ok()
    }

    function Received(): seq<byte>
      requires Ok()
    {
      match this
      case Noise(g) => g
      case Intact(w) => w
      case Faulty(w, i, v) => w[i := v]
    }

    function Delivered(): seq<Frame>
      requires Ok()
    {
      match this
      case Intact(w) => [Decoded(w)]
      case _ => []
    }
  }

  function Line(items: seq<Item>): seq<byte>
    requires forall x | x in items :: x.Ok()
  {
    if items == [] then [] else items[0].Received() + Line(items[1..])
  }

  function Deliveries(items: seq<Item>): seq<Frame>
    requires forall x | x in items :: x.Ok()
  {
    if items == [] then [] else items[0].Delivered() + Deliveries(items[1..])
  }

  lemma ItemRead(x: Item)
    requires x.Ok()
    ensures Output(x.Received()) == x.Delivered() && Rest(x.Received()) == []
  {
    match x
    case Noise(g) => SyncFreeSkipped(g);
    case Intact(w) => TelegramRead(w);
    case Faulty(w, i, v) => FaultSkipped(w, i, v);
  }

  /** Of any mix of SYNC-free noise, intact telegrams and clean telegrams with one contained fault, exactly the intact
      ones come out, in order, and the buffer ends up empty. */
  lemma {:induction false} FaultContainment(items: seq<Item>)
    requires forall x | x in items :: x.Ok()
    ensures Output(Line(items)) == Deliveries(items)
    ensures Rest(Line(items)) == []
  {
    if items != [] {
      var head := items[0].Received();
      ItemRead(items[0]);
      FaultContainment(items[1..]);
      Preceded(head, Line(items[1..]));
    }
  }

  /** Every change to another 7-bit value is contained. */
  lemma SevenBitOk(x: Item)
    requires x.SevenBit()
    ensures x.Ok()
  {
  }

  /** In particular, no fault that leaves bit 7 clear costs any telegram but its own. */
  lemma SevenBitContainment(items: seq<Item>)
    requires forall x | x in items :: x.SevenBit()
    ensures forall x | x in items :: x.Ok()
    ensures Output(Line(items)) == Deliveries(items) && Rest(Line(items)) == []
  {
    forall x | x in items
      ensures x.Ok()
    {
      SevenBitOk(x);
    }
    FaultContainment(items);
  }

  /** The same through the parser object, under any chunking of the line. */
  method Receive(items: seq<Item>, chunks: seq<seq<byte>>) returns (frames: seq<Frame>)
    requires forall x | x in items :: x.Ok()
    requires Concat(chunks) == Line(items)
    ensures frames == Deliveries(items)
  {
    var p := new Parser();
    frames := FeedChunks(p, chunks);
    FaultContainment(items);
  }

  // ---- The stream round trip ---------------------------------------------------------------------

  /** Frames sent by the reference encoder, each after some noise. */
  function Stream(noise: seq<seq<byte>>, frames: seq<Frame>): seq<byte>
    requires |noise| == |frames|
  {
    if frames == [] then [] else noise[0] + EncodeFrame(frames[0]) + Stream(noise[1..], frames[1..])
  }

  /** What the receiver makes of an encoded frame: the sub-frame count went through a byte, so only
      the first n % 256 sub-frames of the zero-padded payload are kept. */
  function Truncated(f: Frame): (g: Frame)
    ensures |g.payload| % 4 == 0 && |g.payload| <= 4 * 255
  {
    f.(payload := Padded(f.payload)[..4 * (BlockCount(f.payload) % 0x100)])
  }

  function TruncatedAll(frames: seq<Frame>): (r: seq<Frame>)
    ensures |r| == |frames| && forall i | 0 <= i < |r| :: r[i] == Truncated(frames[i])
  {
    seq(|frames|, i requires 0 <= i < |frames| => Truncated(frames[i]))
  }

  lemma MultiplesApart(k: nat, n: nat)
    requires k % 4 == 0 && n % 4 == 0 && k < n
    ensures k <= n - 4 && (n - 4) % 4 == 0
  {
    Shrinks(n, 4);
  }

  lemma {:induction false} EncodeBlocksPrefix(q: seq<byte>, k: nat)
    requires |q| % 4 == 0 && k % 4 == 0 && k <= |q|
    ensures EncodeBlocks(q[..k]) <= EncodeBlocks(q)
    decreases |q|
  {
    hide *;
    if k == |q| {
      assert q[..k] == q;
    } else {
      MultiplesApart(k, |q|);
      var front, last := q[..|q| - 4], q[|q| - 4..];
      EncodeBlocksPrefix(front, k);
      assert front[..k] == q[..k];
      EncodeBlocksSnoc(front, last);
      assert q == front + last;
    }
  }

  /** A header announcing fewer sub-frames than follow: the announced ones are read, the others dropped. */
  lemma ExcessDropped(h: seq<byte>, kept: seq<byte>, data: seq<byte>)
    requires WellFormed(h + kept) && kept <= data && forall b | b in data :: b < 0x80
    ensures Output(h + data) == [Decoded(h + kept)] && Rest(h + data) == []
  {
    var lost := data[|kept|..];
    assert data == kept + lost;
    AppendAssoc(h, kept, lost);
    hide *;
    assert forall b | b in lost :: b in data;
    TelegramRead(h + kept);
    SyncFreeSkipped(lost);
    Preceded(h + kept, lost);
  }

  lemma KeptHeader(dst: u16, src: u16, cmd: u16, n: nat)
    ensures EncodeHeader(dst, src, cmd, n) == EncodeHeader(dst, src, cmd, n % 0x100)
  {
  }

  lemma KeptEncoding(f: Frame)
    ensures EncodeFrame(Truncated(f)) ==
            EncodeHeader(f.destination, f.source, f.command, BlockCount(f.payload)) + EncodeBlocks(Truncated(f).payload)
  {
    var g := Truncated(f);
    assert g.destination == f.destination && g.source == f.source && g.command == f.command;
    TruncatedCount(f);
    EncodeFrameIs(g);
    hide *;
    KeptHeader(f.destination, f.source, f.command, BlockCount(f.payload));
  }

  lemma TruncatedCount(f: Frame)
    ensures BlockCount(Truncated(f).payload) == BlockCount(f.payload) % 0x100
    ensures Padded(Truncated(f).payload) == Truncated(f).payload
  {
    BlockCountPadded(f.payload);
    BlockCountPadded(Truncated(f).payload);
  }

  lemma KeptBlocks(f: Frame)
    ensures EncodeBlocks(Truncated(f).payload) <= EncodeBlocks(Padded(f.payload))
  {
    BlockCountPadded(f.payload);
    var k := 4 * (BlockCount(f.payload) % 0x100);
    hide EncodeBlocks, Padded, BlockCount;
    EncodeBlocksPrefix(Padded(f.payload), k);
  }

  lemma KeptDecoded(f: Frame)
    ensures WellFormed(EncodeFrame(Truncated(f))) && Decoded(EncodeFrame(Truncated(f))) == Truncated(f)
  {
    hide *;
    var g := Truncated(f);
    DecodeEncode(g);
    assert g.(payload := Padded(g.payload)) == g;
  }

  lemma EncodedRead(f: Frame)
    ensures Output(EncodeFrame(f)) == [Truncated(f)] && Rest(EncodeFrame(f)) == []
  {
    hide *;
    KeptEncoding(f);
    EncodeFrameIs(f);
    KeptDecoded(f);
    KeptBlocks(f);
    EncodedBit7Clear(Padded(f.payload));
    ExcessDropped(EncodeHeader(f.destination, f.source, f.command, BlockCount(f.payload)),
                  EncodeBlocks(Truncated(f).payload), EncodeBlocks(Padded(f.payload)));
  }

  lemma TruncatedAllCons(frames: seq<Frame>)
    requires frames != []
    ensures TruncatedAll(frames) == [Truncated(frames[0])] + TruncatedAll(frames[1..])
  {
  }

  lemma Preceded(g: seq<byte>, t: seq<byte>)
    requires Rest(g) == []
    ensures Output(g + t) == Output(g) + Output(t) && Rest(g + t) == Rest(t)
  {
    TransparentIff(g);
    assert Transparent(g);
  }

  /** Reading a noisy stream of encoded frames gives them all back, truncated as above; nothing is retained. */
  lemma {:induction false} StreamRead(noise: seq<seq<byte>>, frames: seq<Frame>)
    requires |noise| == |frames| && forall g | g in noise :: SYNC !in g
    ensures Output(Stream(noise, frames)) == TruncatedAll(frames)
    ensures Rest(Stream(noise, frames)) == []
  {
    if frames != [] {
      var g, w, t := noise[0], EncodeFrame(frames[0]), Stream(noise[1..], frames[1..]);
      assert Stream(noise, frames) == g + w + t;
      TruncatedAllCons(frames);
      hide *;
      StreamRead(noise[1..], frames[1..]);
      SyncFreeSkipped(g);
      EncodedRead(frames[0]);
      Preceded(g, w + t);
      Preceded(w, t);
      AppendAssoc(g, w, t);
    }
  }

  /** The payload is whole sub-frames, few enough for the count byte. */
  predicate Whole(f: Frame) { |f.payload| % 4 == 0 && |f.payload| <= 4 * 255 }

  lemma TruncatedIff(f: Frame)
    ensures Truncated(f) == f <==> Whole(f)
  {
    if Whole(f) {
      assert Padded(f.payload)[..|f.payload|] == f.payload;
    }
  }

  /** A frame comes through unchanged exactly when its payload is whole sub-frames and at most 255 of them. */
  lemma RoundTripIff(f: Frame)
    ensures Output(EncodeFrame(f)) == [f] <==> Whole(f)
  {
    EncodedRead(f);
    TruncatedIff(f);
  }

  /** Frames of whole sub-frames survive encoding, noise and every chunking, all of them and in order. */
  lemma StreamRoundTrip(noise: seq<seq<byte>>, frames: seq<Frame>)
    requires |noise| == |frames| && forall g | g in noise :: SYNC !in g
    requires forall f | f in frames :: Whole(f)
    ensures forall chunks | Concat(chunks) == Stream(noise, frames) :: FeedAll(chunks) == (frames, [])
  {
    StreamRead(noise, frames);
    forall i | 0 <= i < |frames|
      ensures Truncated(frames[i]) == frames[i]
    {
      TruncatedIff(frames[i]);
    }
    assert TruncatedAll(frames) == frames;
    forall chunks | Concat(chunks) == Stream(noise, frames)
      ensures FeedAll(chunks) == (frames, [])
    {
      ChunkingInvariance(chunks);
    }
  }

  // ---- Where the obvious claims fail -------------------------------------------------------------

  const FALSE_HEADER: seq<byte> := [0xAA, 0x00, 0x00, 0x00, 0x00, 0x10, 0x00, 0x00, 0x01, 0x6E]
  const VICTIM: seq<byte> := [0xAA, 0x45, 0x00, 0x00, 0x00, 0x10, 0x00, 0x00, 0x00, 0x2A]

  lemma SumOf(s: seq<byte>, t: seq<byte>)
    ensures Sum(s + t) == Sum(s) + Sum(t)
    decreases |t|
  {
    if t == [] {
      assert s + t == s;
    } else {
      assert (s + t)[..|s + t| - 1] == s + t[..|t| - 1];
      SumOf(s, t[..|t| - 1]);
    }
  }

  lemma SumOf4(a: byte, b: byte, c: byte, d: byte)
    ensures Sum([a, b, c, d]) == a + b + c + d
  {
    assert [a][..0] == [] && Sum([a]) == a;
    assert [a, b][..1] == [a] && Sum([a, b]) == a + b;
    assert [a, b, c][..2] == [a, b] && Sum([a, b, c]) == a + b + c;
    assert [a, b, c, d][..3] == [a, b, c];
  }

  lemma FalseHeaderOk()
    ensures HeaderOk(FALSE_HEADER)
  {
    assert FALSE_HEADER[1..9] == [0x00, 0x00, 0x00, 0x00] + [0x10, 0x00, 0x00, 0x01];
    SumOf([0x00, 0x00, 0x00, 0x00], [0x10, 0x00, 0x00, 0x01]);
    SumOf4(0x00, 0x00, 0x00, 0x00);
    SumOf4(0x10, 0x00, 0x00, 0x01);
  }

  lemma VictimOk()
    ensures WellFormed(VICTIM)
  {
    assert VICTIM[1..9] == [0x45, 0x00, 0x00, 0x00] + [0x10, 0x00, 0x00, 0x00];
    SumOf([0x45, 0x00, 0x00, 0x00], [0x10, 0x00, 0x00, 0x00]);
    SumOf4(0x45, 0x00, 0x00, 0x00);
    SumOf4(0x10, 0x00, 0x00, 0x00);
    assert BlocksOk(VICTIM[HEADER..]);
  }

  lemma VictimAsSubFrame()
    ensures BlocksOk(VICTIM[..BLOCK]) && SYNC !in VICTIM[BLOCK..]
  {
    var block := VICTIM[..BLOCK];
    assert block[..5] == [0xAA, 0x45, 0x00, 0x00] + [0x00];
    SumOf([0xAA, 0x45, 0x00, 0x00], [0x00]);
    SumOf4(0xAA, 0x45, 0x00, 0x00);
    assert Sum([0x00]) == 0;
    BlocksOkSnoc([], block);
    assert [] + block == block;
  }

  /** Garbage that contains SYNC can form a header that swallows the start of a real telegram, which is then lost
      although it arrived unharmed. */
  lemma SyncInGarbageLosesTelegram()
    ensures WellFormed(VICTIM)
    ensures Decoded(VICTIM) !in Output(FALSE_HEADER + VICTIM)
    ensures Rest(FALSE_HEADER + VICTIM) == []
  {
    FalseHeaderOk();
    VictimOk();
    VictimAsSubFrame();
    hide BlocksOk, HeaderOk, DecodeBlocks, Output, Rest, WellFormed, Checksum, Pending;
    var block, tail := VICTIM[..BLOCK], VICTIM[BLOCK..];
    Assembled(FALSE_HEADER, block);
    TelegramRead(FALSE_HEADER + block);
    SyncFreeSkipped(tail);
    Preceded(FALSE_HEADER + block, tail);
    assert VICTIM == block + tail;
    AppendAssoc(FALSE_HEADER, block, tail);
    assert |Decoded(FALSE_HEADER + block).payload| == 4 && |Decoded(VICTIM).payload| == 0;
  }

  /** A telegram as it goes over the line, byte by byte: from 0x7112 to 0x0010, bit 7 set in three payload bytes. */
  const SAMPLE: seq<byte> :=
    [0xAA, 0x10, 0x00, 0x12, 0x71, 0x10, 0x00, 0x01, 0x01, 0x5A, 0x00, 0x2B, 0x00, 0x4D, 0x0B, 0x7C]

  lemma SampleOk()
    ensures HeaderOk(SAMPLE) && Announced(SAMPLE) == |SAMPLE| && BlocksOk(SAMPLE[HEADER..])
  {
    assert SAMPLE[1..9] == [0x10, 0x00, 0x12, 0x71] + [0x10, 0x00, 0x01, 0x01];
    SumOf([0x10, 0x00, 0x12, 0x71], [0x10, 0x00, 0x01, 0x01]);
    SumOf4(0x10, 0x00, 0x12, 0x71);
    SumOf4(0x10, 0x00, 0x01, 0x01);
    var block := SAMPLE[HEADER..];
    assert block[..5] == [0x00, 0x2B, 0x00, 0x4D] + [0x0B];
    SumOf([0x00, 0x2B, 0x00, 0x4D], [0x0B]);
    SumOf4(0x00, 0x2B, 0x00, 0x4D);
    assert Sum([0x0B]) == 0x0B;
    BlocksOkSnoc([], block);
    assert [] + block == block;
  }

  lemma SampleBlock()
    ensures DecodeBlocks([0x00, 0x2B, 0x00, 0x4D, 0x0B, 0x7C]) == [0x80, 0xAB, 0x00, 0xCD]
  {
    var block: seq<byte> := [0x00, 0x2B, 0x00, 0x4D, 0x0B, 0x7C];
    assert DecodeBlock(block) == [0x80, 0xAB, 0x00, 0xCD];
    DecodeBlocksSnoc([], block);
    assert [] + block == block && DecodeBlocks([]) == [];
  }

  lemma SampleRead()
    ensures Output(SAMPLE) == [Frame(0x0010, 0x7112, 0x0100, [0x80, 0xAB, 0x00, 0xCD])] && Rest(SAMPLE) == []
  {
    SampleOk();
    SampleBlock();
    hide HeaderOk, BlocksOk, Checksum, DecodeBlocks, Output, Rest;
    assert SAMPLE[HEADER..] == [0x00, 0x2B, 0x00, 0x4D, 0x0B, 0x7C];
    TelegramRead(SAMPLE);
  }

  /** The decoder ignores bits 4 to 6 of the septett byte, so distinct telegrams can decode alike. */
  lemma DecodingNotInjective()
    ensures exists v, w :: WellFormed(v) && WellFormed(w) && v != w && Decoded(v) == Decoded(w)
  {
    var f := Frame(0, 0, 0, [0, 0, 0, 0]);
    DecodeEncode(f);
    var w := LooseTelegram();
    EncodeDecode(w);
  }

  lemma LooseBlock() returns (b: seq<byte>)
    ensures |b| == BLOCK && BlocksOk(b) && Block(b, 0) == b && !CanonicalBlock(b)
    ensures DecodeBlocks(b) == [0, 0, 0, 0]
  {
    var body: seq<byte> := [0, 0, 0, 0, 0x10];
    b := body + [Checksum(body)];
    assert b[..5] == body;
    hide Checksum;
    BlocksOkSnoc([], b);
    DecodeBlocksSnoc([], b);
    assert [] + b == b;
  }

  /** A telegram with a stray bit in its septett byte. */
  lemma LooseTelegram() returns (w: seq<byte>)
    ensures WellFormed(w) && !Canonical(w) && Decoded(w) == Frame(0, 0, 0, [0, 0, 0, 0])
  {
    var b := LooseBlock();
    var h := EncodeHeader(0, 0, 0, 1);
    EncodedHeader(0, 0, 0, 1);
    w := h + b;
    hide EncodeHeader, BlocksOk, CanonicalBlock, DecodeBlocks, Block;
    Assembled(h, b);
    assert w[HEADER..] == b;
  }
}
