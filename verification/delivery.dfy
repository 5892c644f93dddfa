// From measured values to what the bridge publishes: the line, the parser, the table and the payload together.
module Delivery {
  import opened Bytes
  import opened Wire
  import opened Scanner
  import opened VBusParser
  import opened Transmission
  import opened Rounding
  import opened Registries
  import opened Layout
  import opened EndToEnd
  import opened Bridge
  import opened Publishing

  // ---- A stream that has arrived in part -----------------------------------------------------------

  /** How many frames have arrived completely with the first n bytes of a stream. */
  function Carried(noise: seq<seq<byte>>, frames: seq<Frame>, n: nat): (c: nat)
    requires |noise| == |frames|
    ensures c <= |frames|
  {
    if frames == [] then 0
    else
      var one := |noise[0]| + |EncodeFrame(frames[0])|;
      if n < one then 0 else 1 + Carried(noise[1..], frames[1..], n - one)
  }

  /** Nothing is read from a telegram that has not arrived completely. */
  lemma CutTelegram(w: seq<byte>, n: nat)
    requires WellFormed(w) && n < |w|
    ensures Output(w[..n]) == []
  {
    var t := w[..n];
    assert t + w[n..] == w;
    if n >= HEADER {
      HeaderExtends(t, w[n..]);
    }
    assert n > 0 ==> t[0] == SYNC;
    hide BlocksOk, Checksum, Output;
    ScanWaits(t);
  }

  lemma CutPiece(g: seq<byte>, w: seq<byte>, n: nat)
    requires SYNC !in g && WellFormed(w) && n < |g + w|
    ensures Output((g + w)[..n]) == []
  {
    hide *;
    if n <= |g| {
      assert (g + w)[..n] == g[..n];
      SyncFreeSkipped(g[..n]);
    } else {
      assert (g + w)[..n] == g + w[..n - |g|];
      CutTelegram(w, n - |g|);
      SyncFreeSkipped(g);
      Preceded(g, w[..n - |g|]);
    }
  }

  lemma StreamStep(noise: seq<seq<byte>>, frames: seq<Frame>, n: nat)
    requires |noise| == |frames| && frames != []
    ensures Stream(noise, frames) == noise[0] + EncodeFrame(frames[0]) + Stream(noise[1..], frames[1..])
    ensures var one := |noise[0] + EncodeFrame(frames[0])|;
      Carried(noise, frames, n) == if n < one then 0 else 1 + Carried(noise[1..], frames[1..], n - one)
  {
    hide EncodeFrame;
  }

  lemma WholeRead(f: Frame)
    requires Whole(f)
    ensures WellFormed(EncodeFrame(f)) && Output(EncodeFrame(f)) == [f] && Rest(EncodeFrame(f)) == []
  {
    DecodeEncode(f);
    hide EncodeFrame, WellFormed, Decoded, Output, Rest, Truncated;
    EncodedRead(f);
    TruncatedIff(f);
  }

  /** SYNC-free noise and whole frames, one for one. */
  ghost predicate Sendable(noise: seq<seq<byte>>, frames: seq<Frame>) {
    |noise| == |frames| && (forall g | g in noise :: SYNC !in g) && (forall f | f in frames :: Whole(f))
  }

  lemma SendableTail(noise: seq<seq<byte>>, frames: seq<Frame>)
    requires Sendable(noise, frames) && frames != []
    ensures |noise| == |frames| && SYNC !in noise[0] && Whole(frames[0]) && Sendable(noise[1..], frames[1..])
  {
    hide Whole;
  }

  lemma CutAcross<T>(g: seq<T>, w: seq<T>, t: seq<T>, n: nat)
    requires n <= |g + w + t|
    ensures n < |g + w| ==> (g + w + t)[..n] == (g + w)[..n]
    ensures n >= |g + w| ==> n - |g + w| <= |t| && (g + w + t)[..n] == g + (w + t[..n - |g + w|])
  {
  }

  lemma ReadPast(g: seq<byte>, f: Frame, t: seq<byte>)
    requires SYNC !in g && Whole(f)
    ensures Output(g + (EncodeFrame(f) + t)) == [f] + Output(t)
  {
    hide *;
    WholeRead(f);
    SyncFreeSkipped(g);
    Preceded(g, EncodeFrame(f) + t);
    Preceded(EncodeFrame(f), t);
    assert [] + ([f] + Output(t)) == [f] + Output(t);
  }

  lemma TakeCons<T>(s: seq<T>, c: nat)
    requires 1 <= c <= |s|
    ensures s[..c] == [s[0]] + s[1..][..c - 1]
  {
  }

  lemma NothingSent(noise: seq<seq<byte>>, frames: seq<Frame>, n: nat)
    requires |noise| == |frames| == 0
    ensures n <= |Stream(noise, frames)| ==>
      Output(Stream(noise, frames)[..n]) == frames[..Carried(noise, frames, n)]
  {
    assert Stream(noise, frames) == [];
    hide Output;
    SyncFreeSkipped([]);
  }

  /** Wherever a stream is cut off, exactly the frames that have arrived completely are read. */
  lemma {:induction false} CutStream(noise: seq<seq<byte>>, frames: seq<Frame>, n: nat)
    requires |noise| == |frames| && Sendable(noise, frames)
    ensures n <= |Stream(noise, frames)| ==>
      Output(Stream(noise, frames)[..n]) == frames[..Carried(noise, frames, n)]
    decreases |frames|
  {
    hide *;
    if frames == [] {
      NothingSent(noise, frames, n);
    } else if n <= |Stream(noise, frames)| {
      StreamStep(noise, frames, n);
      SendableTail(noise, frames);
      var g, w, t := noise[0], EncodeFrame(frames[0]), Stream(noise[1..], frames[1..]);
      CutAcross(g, w, t, n);
      if n < |g + w| {
        WholeRead(frames[0]);
        CutPiece(g, w, n);
      } else {
        CutStream(noise[1..], frames[1..], n - |g + w|);
        ReadPast(g, frames[0], t[..n - |g + w|]);
        TakeCons(frames, Carried(noise, frames, n));
      }
    }
  }

  // ---- The last measurement of each source ---------------------------------------------------------

  /** Measurement i is the last of its source among the first c. */
  predicate LastMeasured(ms: seq<Measurement>, c: nat, i: nat)
    requires c <= |ms|
  {
    i < c && forall j | i < j < c :: ms[j].key.src != ms[i].key.src
  }

  ghost predicate Heard(ms: seq<Measurement>, c: nat, src: u16)
    requires c <= |ms|
  {
    exists i | 0 <= i < c :: ms[i].key.src == src
  }

  /** The table has the telemetry of this measurement for its source. */
  ghost predicate Shows(model: map<Key, PacketDef>, table: Table, m: Measurement) {
    Measurable(model, m) && m.key.src in table && table[m.key.src] == TelemetryOf(model, m)
  }

  /** The table has exactly the sources of the first c measurements, each with its last one. */
  ghost predicate ShowsLast(model: map<Key, PacketDef>, ms: seq<Measurement>, c: nat, table: Table)
    requires c <= |ms|
  {
    && (forall src :: src in table <==> Heard(ms, c, src))
    && (forall i: nat | LastMeasured(ms, c, i) :: Shows(model, table, ms[i]))
  }

  /** The frame is known and carries the measurement. */
  ghost predicate Carrying(model: map<Key, PacketDef>, f: Frame, m: Measurement) {
    && Measurable(model, m) && f.source == m.key.src && FrameKey(f) in model
    && Decoding(f, model[FrameKey(f)]) == TelemetryOf(model, m)
  }

  ghost predicate AllCarrying(model: map<Key, PacketDef>, frames: seq<Frame>, ms: seq<Measurement>) {
    |frames| <= |ms| && forall i | 0 <= i < |frames| :: Carrying(model, frames[i], ms[i])
  }

  lemma FrameCarries(model: map<Key, PacketDef>, m: Measurement)
    requires Measurable(model, m)
    ensures Carrying(model, FrameOf(model, m), m)
  {
    MeasurableKnown(model, m);
    hide Decoding, TelemetryOf, FrameOf, Measurable;
    FrameDecodes(model, m);
  }

  lemma FramesCarry(model: map<Key, PacketDef>, ms: seq<Measurement>, c: nat)
    requires AllMeasurable(model, ms) && c <= |ms|
    ensures AllCarrying(model, FramesOf(model, ms)[..c], ms)
  {
    hide Carrying, FramesOf, FrameOf, Measurable;
    forall i | 0 <= i < c
      ensures Carrying(model, FramesOf(model, ms)[..c][i], ms[i])
    {
      assert ms[i] in ms;
      FrameCarries(model, ms[i]);
    }
  }

  lemma CarryingMeans(model: map<Key, PacketDef>, f: Frame, m: Measurement)
    requires Carrying(model, f, m)
    ensures f.source == m.key.src && FrameKey(f) in model
  {
  }

  lemma LastIsKnown(model: map<Key, PacketDef>, frames: seq<Frame>, ms: seq<Measurement>, i: nat)
    requires AllCarrying(model, frames, ms) && LastMeasured(ms, |frames|, i)
    ensures i < |frames| && Carrying(model, frames[i], ms[i]) && LastKnown(model, frames, ms[i].key.src, i)
  {
    hide Carrying, FrameKey;
    CarryingMeans(model, frames[i], ms[i]);
    forall j | i < j < |frames|
      ensures frames[j].source != ms[i].key.src
    {
      CarryingMeans(model, frames[j], ms[j]);
    }
  }

  lemma LastShown(model: map<Key, PacketDef>, frames: seq<Frame>, ms: seq<Measurement>, i: nat)
    requires AllCarrying(model, frames, ms) && LastMeasured(ms, |frames|, i)
    ensures i < |ms| && Shows(model, Latest(model, frames), ms[i])
  {
    LastIsKnown(model, frames, ms, i);
    hide Latest, Measurable, TelemetryOf, Decoding, FrameKey, LastKnown, AllCarrying, LastMeasured;
    LatestOfLast(model, frames, ms[i].key.src, i);
  }

  lemma SourceShown(model: map<Key, PacketDef>, frames: seq<Frame>, ms: seq<Measurement>, src: u16)
    requires AllCarrying(model, frames, ms)
    ensures src in Latest(model, frames) <==> Heard(ms, |frames|, src)
  {
    hide Latest, Carrying, FrameKey, Shows, LastMeasured;
    if src in Latest(model, frames) {
      var i := LatestHasLast(model, frames, src);
      CarryingMeans(model, frames[i], ms[i]);
    }
    if Heard(ms, |frames|, src) {
      var i :| 0 <= i < |frames| && ms[i].key.src == src;
      var k := LastFrom(ms, |frames|, i);
      LastShown(model, frames, ms, k);
      ShownIsThere(model, Latest(model, frames), ms[k]);
    }
  }

  lemma ShownIsThere(model: map<Key, PacketDef>, table: Table, m: Measurement)
    requires Shows(model, table, m)
    ensures m.key.src in table
  {
  }

  lemma LatestShowsLast(model: map<Key, PacketDef>, ms: seq<Measurement>, frames: seq<Frame>)
    requires AllCarrying(model, frames, ms)
    ensures ShowsLast(model, ms, |frames|, Latest(model, frames))
  {
    hide Latest, AllCarrying, LastMeasured, Shows, Heard;
    AllCarryingShorter(model, frames, ms);
    forall i: nat | LastMeasured(ms, |frames|, i)
      ensures i < |ms| && Shows(model, Latest(model, frames), ms[i])
    {
      LastShown(model, frames, ms, i);
    }
    forall src
      ensures src in Latest(model, frames) <==> Heard(ms, |frames|, src)
    {
      SourceShown(model, frames, ms, src);
    }
  }

  lemma AllCarryingShorter(model: map<Key, PacketDef>, frames: seq<Frame>, ms: seq<Measurement>)
    requires AllCarrying(model, frames, ms)
    ensures |frames| <= |ms|
  {
  }

  lemma {:induction false} LastFrom(ms: seq<Measurement>, c: nat, i: nat) returns (k: nat)
    requires i < c <= |ms|
    ensures LastMeasured(ms, c, k) && k < c && ms[k].key.src == ms[i].key.src
    decreases c - i
  {
    if LastMeasured(ms, c, i) {
      k := i;
    } else {
      var j :| i < j < c && ms[j].key.src == ms[i].key.src;
      k := LastFrom(ms, c, j);
    }
  }

  // ---- Publications --------------------------------------------------------------------------------

  lemma {:induction false} ReceivedGrows(its: seq<Iteration>, i: nat, k: nat)
    requires i <= k <= |its|
    ensures Received(its, i) <= Received(its, k)
    decreases k
  {
    if i < k {
      ReceivedGrows(its, i, k - 1);
    }
  }

  /** The line brings these measurements, each after some SYNC-free noise, and what the run reads is part of it. */
  ghost predicate Feeds(model: map<Key, PacketDef>, ms: seq<Measurement>, noise: seq<seq<byte>>, its: seq<Iteration>)
    requires AllMeasurable(model, ms)
  {
    && |noise| == |ms| && (forall g | g in noise :: SYNC !in g)
    && Received(its, |its|) <= Stream(noise, FramesOf(model, ms))
  }

  /** How many measurements have arrived completely after k iterations. */
  function Arrivals(model: map<Key, PacketDef>, ms: seq<Measurement>, noise: seq<seq<byte>>,
                    its: seq<Iteration>, k: nat): (c: nat)
    requires AllMeasurable(model, ms) && |noise| == |ms| && k <= |its|
    ensures c <= |ms|
  {
    Carried(noise, FramesOf(model, ms), |Received(its, k)|)
  }

  lemma ReceivedIsCut(model: map<Key, PacketDef>, ms: seq<Measurement>, noise: seq<seq<byte>>,
                      its: seq<Iteration>, k: nat)
    requires AllMeasurable(model, ms) && |noise| == |ms| && Feeds(model, ms, noise, its) && k <= |its|
    ensures Sendable(noise, FramesOf(model, ms))
    ensures var n := |Received(its, k)|;
      n <= |Stream(noise, FramesOf(model, ms))| && Received(its, k) == Stream(noise, FramesOf(model, ms))[..n]
  {
    FramesArrive(model, ms);
    assert forall g | g in noise :: SYNC !in g;
    assert Received(its, |its|) <= Stream(noise, FramesOf(model, ms));
    assert Sendable(noise, FramesOf(model, ms)) by {
      hide Whole, Received, Stream, FramesOf;
    }
    hide *;
    ReceivedGrows(its, k, |its|);
    PrefixOfPrefix(Received(its, k), Received(its, |its|), Stream(noise, FramesOf(model, ms)));
  }

  lemma PrefixOfPrefix<T>(a: seq<T>, b: seq<T>, c: seq<T>)
    requires a <= b <= c
    ensures |a| <= |c| && a == c[..|a|]
  {
  }

  lemma TableShowsLast(model: map<Key, PacketDef>, ms: seq<Measurement>, noise: seq<seq<byte>>,
                       its: seq<Iteration>, k: nat)
    requires AllMeasurable(model, ms) && |noise| == |ms| && Feeds(model, ms, noise, its) && k <= |its|
    ensures ShowsLast(model, ms, Arrivals(model, ms, noise, its, k), TableAt(model, its, k))
  {
    ReceivedIsCut(model, ms, noise, its, k);
    var c := Arrivals(model, ms, noise, its, k);
    assert TableAt(model, its, k) == Latest(model, Output(Received(its, k)));
    assert c == Carried(noise, FramesOf(model, ms), |Received(its, k)|);
    hide *;
    CutStream(noise, FramesOf(model, ms), |Received(its, k)|);
    FramesCarry(model, ms, c);
    LatestShowsLast(model, ms, FramesOf(model, ms)[..c]);
  }

  /** The publication shows, for exactly the sources heard of, the last measurement that has arrived completely. */
  ghost predicate ShowsArrivals(model: map<Key, PacketDef>, ms: seq<Measurement>, noise: seq<seq<byte>>,
                                its: seq<Iteration>, p: Publication)
    requires AllMeasurable(model, ms) && |noise| == |ms|
  {
    p.iteration < |its| && ShowsLast(model, ms, Arrivals(model, ms, noise, its, p.iteration + 1), p.table)
  }

  lemma CorrectTable(model: map<Key, PacketDef>, its: seq<Iteration>, start: int, pubs: seq<Publication>, j: nat)
    requires j < |pubs| && Correct(model, its, start, pubs, j)
    ensures pubs[j].iteration < |its| && pubs[j].table == TableAt(model, its, pubs[j].iteration + 1)
  {
    hide TableAt;
  }

  /** Every publication of a run does. */
  lemma PublicationsShowMeasurements(model: map<Key, PacketDef>, ms: seq<Measurement>, noise: seq<seq<byte>>,
                                     its: seq<Iteration>, start: int, k: nat)
    requires AllMeasurable(model, ms) && |noise| == |ms| && Feeds(model, ms, noise, its) && k <= |its|
    ensures var pubs := Schedule(model, its, start, k);
      forall j | 0 <= j < |pubs| :: ShowsArrivals(model, ms, noise, its, pubs[j])
  {
    hide *;
    var pubs := Schedule(model, its, start, k);
    PublicationsCorrect(model, its, start, k);
    forall j | 0 <= j < |pubs|
      ensures ShowsArrivals(model, ms, noise, its, pubs[j])
    {
      CorrectShows(model, ms, noise, its, start, pubs, j);
    }
  }

  lemma CorrectShows(model: map<Key, PacketDef>, ms: seq<Measurement>, noise: seq<seq<byte>>,
                     its: seq<Iteration>, start: int, pubs: seq<Publication>, j: nat)
    requires AllMeasurable(model, ms) && |noise| == |ms| && Feeds(model, ms, noise, its) && j < |pubs|
    ensures Correct(model, its, start, pubs, j) ==> ShowsArrivals(model, ms, noise, its, pubs[j])
  {
    hide *;
    if Correct(model, its, start, pubs, j) {
      CorrectTable(model, its, start, pubs, j);
      TableShowsLast(model, ms, noise, its, pubs[j].iteration + 1);
      ShowsArrivalsIf(model, ms, noise, its, pubs[j]);
    }
  }

  lemma ShowsArrivalsIf(model: map<Key, PacketDef>, ms: seq<Measurement>, noise: seq<seq<byte>>,
                        its: seq<Iteration>, p: Publication)
    requires AllMeasurable(model, ms) && |noise| == |ms| && p.iteration < |its|
    ensures ShowsLast(model, ms, Arrivals(model, ms, noise, its, p.iteration + 1), p.table) ==>
            ShowsArrivals(model, ms, noise, its, p)
  {
    hide AllMeasurable, ShowsLast, Arrivals;
  }

  /** The payload of a measurement holds each measured value, scaled, under the name of its field. */
  lemma PayloadShowsMeasurement(model: map<Key, PacketDef>, m: Measurement, i: nat)
    requires Measurable(model, m) && DistinctNames(DefNames(model[m.key].fields)) && i < |model[m.key].fields|
    ensures var fd, values := model[m.key].fields[i], Values(TelemetryOf(model, m).fields);
      && fd.name in values && values[fd.name] == Value(m.raws[i], fd.factor)
      && (fd.factor >= 0.01 ==> Recover(values[fd.name], fd.factor) == m.raws[i])
  {
    var defs := model[m.key].fields;
    DistinctHeld(defs, m.raws);
    assert Holds(Expected(defs, m.raws), i);
    hide Value, Recover;
    if defs[i].factor >= 0.01 {
      RecoverExact(m.raws[i], defs[i].factor);
    }
  }
}
