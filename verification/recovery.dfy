// Getting back in step: which retained bytes can still become a telegram, and which can still cost one.
module Recovery {
  import opened Bytes
  import opened Wire
  import opened Scanner
  import opened VBusParser
  import opened Transmission

  // ---- When waiting is in vain ---------------------------------------------------------------------

  /** The bytes received so far already rule a telegram out: the version byte is wrong although the header is still
      incomplete, or a sub-frame that has arrived completely has a bad checksum. The parser waits all the same. */
  predicate Hopeless(t: seq<byte>) {
    || (5 < |t| < HEADER && t[5] != VERSION1)
    || (|t| >= HEADER && !BlocksOk(t[HEADER..]))
  }

  lemma BadVersionStays(t: seq<byte>, ext: seq<byte>)
    requires 5 < |t| && t[5] != VERSION1
    ensures !StartsTelegram(t + ext)
  {
  }

  lemma SameBlock(d: seq<byte>, e: seq<byte>, k: nat)
    requires d <= e && BLOCK * (k + 1) <= |d|
    ensures Block(e, k) == Block(d, k)
  {
  }

  /** In front of a telegram all complete sub-frames received so far were good. */
  lemma BlocksWereOk(t: seq<byte>, ext: seq<byte>)
    requires HEADER <= |t| <= Announced(t) && StartsTelegram(t + ext)
    ensures BlocksOk(t[HEADER..])
  {
    var d, u := t[HEADER..], t + ext;
    var e := u[HEADER..Announced(u)];
    assert Announced(u) == Announced(t);
    assert e[..|d|] == d;
    forall k | 0 <= k < |d| / BLOCK
      ensures BlockOk(Block(d, k))
    {
      SameBlock(d, e, k);
      assert BlockOk(Block(e, k));
    }
  }

  lemma HopelessStays(t: seq<byte>, ext: seq<byte>)
    requires t != [] && Pending(t) && Hopeless(t)
    ensures !StartsTelegram(t + ext)
  {
    if |t| < HEADER {
      BadVersionStays(t, ext);
    } else if StartsTelegram(t + ext) {
      BlocksWereOk(t, ext);
    }
  }

  lemma HopelessIsDead(t: seq<byte>)
    requires t != [] && Pending(t) && Hopeless(t)
    ensures Dead(t)
  {
    forall ext: seq<byte>, n: nat | n <= |t + ext|
      ensures !WellFormed((t + ext)[..n])
    {
      HopelessStays(t, ext);
      if WellFormed((t + ext)[..n]) {
        WellFormedPrefix(t + ext, n);
      }
    }
  }

  // ---- Completing whatever is not hopeless ---------------------------------------------------------

  /** Byte i of a good header that begins with t. */
  function HeaderByte(t: seq<byte>, i: nat): byte {
    if i < |t| then t[i] else if i == 5 then VERSION1 else 0
  }

  lemma CompleteHeader(t: seq<byte>) returns (h: seq<byte>)
    requires 0 < |t| < HEADER && t[0] == SYNC && !Hopeless(t)
    ensures |h| == HEADER && HeaderOk(h) && t <= h
  {
    var c: seq<byte> := [HeaderByte(t, 1), HeaderByte(t, 2), HeaderByte(t, 3), HeaderByte(t, 4),
                         HeaderByte(t, 5), HeaderByte(t, 6), HeaderByte(t, 7), HeaderByte(t, 8)];
    h := [SYNC] + c + [Checksum(c)];
    assert h[1..9] == c;
  }

  lemma CompleteBlock(p: seq<byte>) returns (b: seq<byte>)
    requires |p| < BLOCK
    ensures |b| == BLOCK && BlockOk(b) && p <= b
  {
    var body := p + [0, 0, 0, 0, 0][..5 - |p|];
    b := body + [Checksum(body)];
    assert b[..5] == body;
  }

  /** Any number of further sub-frames can be added to good ones. */
  lemma {:induction false} CompleteBlocks(d: seq<byte>, n: nat) returns (e: seq<byte>)
    requires |d| % BLOCK == 0 && BlocksOk(d) && |d| <= BLOCK * n
    ensures d <= e && |e| == BLOCK * n && BlocksOk(e)
    decreases BLOCK * n - |d|
  {
    if |d| == BLOCK * n {
      e := d;
    } else {
      var b := CompleteBlock([]);
      BlocksOkSnoc(d, b);
      e := CompleteBlocks(d + b, n);
    }
  }

  lemma WholePart(len: nat, n: nat)
    requires len < BLOCK * n
    ensures (len - len % BLOCK) % BLOCK == 0 && len - len % BLOCK + BLOCK <= BLOCK * n
  {
  }

  /** Good sub-frames with an incomplete one at the end can be completed, too. */
  lemma CompleteData(d: seq<byte>, n: nat) returns (e: seq<byte>)
    requires BlocksOk(d) && |d| < BLOCK * n
    ensures d <= e && |e| == BLOCK * n && BlocksOk(e)
  {
    var whole := |d| - |d| % BLOCK;
    var front, back := d[..whole], d[whole..];
    WholeBlocksOk(d);
    WholePart(|d|, n);
    hide *;
    var b := CompleteBlock(back);
    BlocksOkSnoc(front, b);
    assert d == front + back;
    assert (front + b)[..|d|] == front + b[..|back|];
    e := CompleteBlocks(front + b, n);
  }

  lemma WholeBlocksOk(d: seq<byte>)
    requires BlocksOk(d)
    ensures BlocksOk(d[..|d| - |d| % BLOCK])
  {
    var front := d[..|d| - |d| % BLOCK];
    forall k | 0 <= k < |front| / BLOCK
      ensures BlockOk(Block(front, k))
    {
      assert Block(front, k) == Block(d, k);
    }
  }

  lemma CompleteTail(h: seq<byte>, d: seq<byte>) returns (e: seq<byte>)
    requires |h| == HEADER && HeaderOk(h) && BlocksOk(d) && |d| <= BLOCK * h[8]
    ensures WellFormed(h + e) && d <= e
  {
    if |d| < BLOCK * h[8] {
      e := CompleteData(d, h[8]);
    } else {
      e := d;
    }
    Assembled(h, e);
  }

  /** Retained bytes that are not hopeless do have a continuation that makes them a telegram. */
  lemma CompletionExists(t: seq<byte>) returns (ext: seq<byte>)
    requires t != [] && Pending(t) && !Hopeless(t)
    ensures WellFormed(t + ext)
  {
    if |t| < HEADER {
      var h := CompleteHeader(t);
      var e := CompleteTail(h, []);
      ext := h[|t|..] + e;
      assert t + ext == h + e;
    } else {
      var h, d := t[..HEADER], t[HEADER..];
      assert t == h + d;
      HeaderExtends(h, d);
      var e := CompleteTail(h, d);
      ext := e[|d|..];
      assert e == d + ext;
      AppendAssoc(h, d, ext);
    }
  }

  /** The parser waits in vain exactly when the retained bytes are hopeless. */
  lemma PendingDeadIff(t: seq<byte>)
    requires t != [] && Pending(t)
    ensures Dead(t) <==>
            || (5 < |t| < HEADER && t[5] != VERSION1)
            || (|t| >= HEADER && exists k | 0 <= k < |t[HEADER..]| / BLOCK :: !BlockOk(Block(t[HEADER..], k)))
  {
    assert Hopeless(t) <==>
      || (5 < |t| < HEADER && t[5] != VERSION1)
      || (|t| >= HEADER && exists k | 0 <= k < |t[HEADER..]| / BLOCK :: !BlockOk(Block(t[HEADER..], k)));
    if Hopeless(t) {
      HopelessIsDead(t);
    } else {
      var ext := CompletionExists(t);
      assert (t + ext)[..|t + ext|] == t + ext;
      assert !Dead(t);
    }
  }

  // ---- Which retained bytes can cost or delay a frame ----------------------------------------------

  /** Whatever follows g, exactly its own frames are read from it. */
  ghost predicate NothingLost(g: seq<byte>) {
    forall t :: Output(g + t) == Output(g) + Output(t)
  }

  /** How many more bytes the parser wants before it decides about r. */
  function Shortfall(r: seq<byte>): (n: nat)
    requires r != [] && Pending(r)
    ensures n > 0
  {
    if |r| < HEADER then HEADER - |r| else Announced(r) - |r|
  }

  /** Retained bytes that neither cost nor delay a frame: none; or a hopeless head that is given up before a whole
      telegram can pass, with no frame behind it and a rest that is harmless in turn. */
  predicate Harmless(r: seq<byte>)
    decreases |r|
  {
    r == [] ||
    (&& Pending(r) && Hopeless(r) && Shortfall(r) <= HEADER
     && Output(r[1..]) == []
     && (BoundedRetention(r[1..]);
         Harmless(Rest(r[1..]))))
  }

  ghost predicate Silent(r: seq<byte>) {
    forall t :: Output(r + t) == Output(t)
  }

  lemma ShortSilence(t: seq<byte>)
    requires |t| < HEADER
    ensures Output(t) == []
  {
    ByteConservation(t);
  }

  function Noise(n: nat): (z: seq<byte>)
    ensures |z| == n && forall b | b in z :: b == 0xFF
  {
    if n == 0 then [] else Noise(n - 1) + [0xFF]
  }

  /** Fewer than ten bytes followed by bytes that cannot be a checksum hold no telegram. */
  lemma {:induction false} NoiseSilences(t: seq<byte>, n: nat)
    requires |t| < HEADER
    ensures Output(t + Noise(n)) == []
    decreases |t|
  {
    var u := t + Noise(n);
    if t == [] {
      assert u == Noise(n);
      SyncFreeSkipped(u);
    } else if Pending(u) {
      ScanWaits(u);
    } else {
      assert |u| > 9 ==> u[9] in Noise(n);
      ScanRejects(u);
      assert u[1..] == t[1..] + Noise(n);
      NoiseSilences(t[1..], n);
    }
  }

  /** A hopeless head holds everything up until it is given up, and then counts for nothing. */
  lemma HopelessHead(r: seq<byte>, t: seq<byte>)
    requires r != [] && Pending(r) && Hopeless(r)
    ensures |t| < Shortfall(r) ==> Output(r + t) == []
    ensures |t| >= Shortfall(r) ==> Output(r + t) == Output(r[1..] + t)
  {
    if |r| >= HEADER {
      HeaderExtends(r, t);
    }
    if |t| < Shortfall(r) {
      ScanWaits(r + t);
    } else {
      HopelessStays(r, t);
      ScanRejects(r + t);
      assert (r + t)[1..] == r[1..] + t;
    }
  }

  lemma LiveIsHeard(r: seq<byte>)
    requires r != [] && Pending(r) && !Hopeless(r)
    ensures !Silent(r)
  {
    var ext := CompletionExists(r);
    TelegramRead(r + ext);
    ByteConservation(ext);
    assert WireLength([Decoded(r + ext)]) == |r + ext|;
    assert Output(r + ext) != Output(ext);
  }

  const SHORTEST: Frame := Frame(0, 0, 0, [])

  lemma ShortestTelegram()
    ensures |EncodeFrame(SHORTEST)| == HEADER && Output(EncodeFrame(SHORTEST)) == [SHORTEST]
  {
    RoundTripIff(SHORTEST);
  }

  lemma LongWaitIsHeard(r: seq<byte>)
    requires r != [] && Pending(r) && Hopeless(r) && Shortfall(r) > HEADER
    ensures !Silent(r)
  {
    var w := EncodeFrame(SHORTEST);
    ShortestTelegram();
    HopelessHead(r, w);
    assert Output(r + w) != Output(w);
  }

  lemma DelayedFrameIsHeard(r: seq<byte>)
    requires r != [] && Pending(r) && Hopeless(r) && Output(r[1..]) != []
    ensures !Silent(r)
  {
    var z := Noise(Shortfall(r));
    HopelessHead(r, z);
    OutputMonotone(r[1..], z);
    SyncFreeSkipped(z);
    assert Output(r + z) != Output(z);
  }

  /** Behind a head that is given up in time and holds no frame, only the rest matters. */
  lemma BehindHead(r: seq<byte>, t: seq<byte>)
    requires r != [] && Pending(r) && Hopeless(r) && Shortfall(r) <= HEADER && Output(r[1..]) == []
    ensures |t| >= Shortfall(r) ==> Output(r + t) == Output(Rest(r[1..]) + t)
    ensures |t| < Shortfall(r) ==> Output(r + t) == Output(t) == []
  {
    HopelessHead(r, t);
    hide *;
    OutputResumes(r[1..], t);
    assert [] + Output(Rest(r[1..]) + t) == Output(Rest(r[1..]) + t);
    if |t| < Shortfall(r) {
      ShortSilence(t);
    }
  }

  /** Bytes too few to end the wait say nothing behind the rest either. */
  lemma RestSilentOnShort(r: seq<byte>, t: seq<byte>)
    requires r != [] && Pending(r) && Hopeless(r) && Shortfall(r) <= HEADER && Output(r[1..]) == []
    requires Silent(r) && |t| < Shortfall(r)
    ensures Output(Rest(r[1..]) + t) == Output(t)
  {
    var s, z := Rest(r[1..]), Noise(Shortfall(r));
    assert Output(r + (t + z)) == Output(t + z);
    hide *;
    BehindHead(r, t + z);
    BehindHead(r, t);
    NoiseSilences(t, Shortfall(r));
    OutputMonotone(s + t, z);
    AppendAssoc(s, t, z);
  }

  /** A harmless head can be dropped from the question. */
  lemma SilentBehindHead(r: seq<byte>)
    requires r != [] && Pending(r) && Hopeless(r) && Shortfall(r) <= HEADER && Output(r[1..]) == []
    ensures Silent(r) <==> Silent(Rest(r[1..]))
  {
    hide Pending, Hopeless, Shortfall, Output, Rest;
    forall t
      ensures Silent(r) ==> Output(Rest(r[1..]) + t) == Output(t)
      ensures Silent(Rest(r[1..])) ==> Output(r + t) == Output(t)
    {
      BehindHead(r, t);
      if Silent(r) && |t| < Shortfall(r) {
        RestSilentOnShort(r, t);
      }
    }
  }

  lemma {:induction false} HarmlessIff(r: seq<byte>)
    requires Pending(r)
    ensures Silent(r) <==> Harmless(r)
    decreases |r|
  {
    if r == [] {
      assert forall t: seq<byte> :: r + t == t;
    } else if !Hopeless(r) {
      LiveIsHeard(r);
    } else if Shortfall(r) > HEADER {
      LongWaitIsHeard(r);
    } else if Output(r[1..]) != [] {
      DelayedFrameIsHeard(r);
    } else {
      BoundedRetention(r[1..]);
      HarmlessIff(Rest(r[1..]));
      SilentBehindHead(r);
    }
  }

  /** After g, no frame is ever lost, invented or held up, whatever follows, exactly when the bytes retained after g
      are harmless. */
  lemma NothingLostIff(g: seq<byte>)
    ensures NothingLost(g) <==> Harmless(Rest(g))
  {
    var r := Rest(g);
    BoundedRetention(g);
    forall t
      ensures Output(g + t) == Output(g) + Output(t) <==> Output(r + t) == Output(t)
    {
      OutputResumes(g, t);
      AppendCancels(Output(g), Output(r + t), Output(t));
    }
    HarmlessIff(r);
    assert NothingLost(g) <==> Silent(r);
  }

  lemma AppendCancels<T>(a: seq<T>, b: seq<T>, c: seq<T>)
    ensures a + b == a + c <==> b == c
  {
    if a + b == a + c {
      assert (a + b)[|a|..] == b && (a + c)[|a|..] == c;
    }
  }

  // ---- One input of each kind ----------------------------------------------------------------------

  const FALSE_START: seq<byte> := [0xAA, 0x00, 0x00, 0x00, 0x00, 0x00]

  /** A SYNC followed by bytes that cannot be a header is retained, and yet no telegram is lost to it. */
  lemma FalseStartHarmless()
    ensures Rest(FALSE_START) == FALSE_START && Dead(FALSE_START) && NothingLost(FALSE_START)
  {
    var r := FALSE_START;
    ScanWaits(r);
    HopelessIsDead(r);
    SyncFreeSkipped(r[1..]);
    assert Harmless([]);
    assert Harmless(r);
    NothingLostIff(r);
  }

  /** A false header holds a real telegram back, or swallows it. */
  lemma FalseHeaderHarmful()
    ensures Rest(FALSE_HEADER) == FALSE_HEADER && !Dead(FALSE_HEADER) && !NothingLost(FALSE_HEADER)
  {
    var r := FALSE_HEADER;
    FalseHeaderOk();
    ScanWaits(r);
    assert !Hopeless(r);
    PendingDeadIff(r);
    assert r[HEADER..] == [];
    assert !Harmless(r);
    NothingLostIff(r);
  }

  /** Even a head that can no longer become a telegram holds real ones up if it announces enough sub-frames. */
  lemma HopelessHeadHarmful()
    ensures exists g :: Rest(g) == g && Dead(g) && !NothingLost(g)
  {
    var h, b := EncodeHeader(0, 0, 0, 3), [0, 0, 0, 0, 0, 0];
    var g := h + b;
    HeaderExtends(h, b);
    assert h[8] == 3 && g[8] == 3;
    assert g[HEADER..] == b && Block(b, 0) == b;
    assert b[..5] == [0, 0, 0, 0] + [0];
    SumOf([0, 0, 0, 0], [0]);
    SumOf4(0, 0, 0, 0);
    assert Sum([0]) == 0;
    assert !BlockOk(Block(b, 0));
    ScanWaits(g);
    HopelessIsDead(g);
    assert Shortfall(g) == 12;
    assert !Harmless(g);
    NothingLostIff(g);
  }
}
