// From measured values on the sender's side to telemetry on the receiver's.
module EndToEnd {
  import opened Bytes
  import opened Wire
  import opened Scanner
  import opened VBusParser
  import opened Transmission
  import opened Registries
  import opened Layout

  function Zeros(n: nat): (p: seq<byte>)
    ensures |p| == n
  {
    if n == 0 then [] else Zeros(n - 1) + [0]
  }

  /** Raw values measured by a device, to be sent in a payload of whole sub-frames. */
  datatype Measurement = Measurement(key: Key, raws: seq<int>, blocks: nat)

  /** The device is registered with fields that fit the payload without overlap, and the values are in range. */
  predicate Measurable(model: map<Key, PacketDef>, m: Measurement) {
    && m.key in model && m.blocks <= 255
    && Fits(model[m.key].fields, 4 * m.blocks)
    && PairwiseApart(model[m.key].fields, 4 * m.blocks)
    && AllInRange(model[m.key].fields, m.raws, 4 * m.blocks)
  }

  /** The frame that carries a measurement in an otherwise zeroed payload. */
  function FrameOf(model: map<Key, PacketDef>, m: Measurement): (f: Frame)
    requires Measurable(model, m)
    ensures Whole(f) && FrameKey(f) == m.key
  {
    Frame(m.key.dst, m.key.src, m.key.cmd, WriteAll(Zeros(4 * m.blocks), model[m.key].fields, m.raws))
  }

  /** The telemetry a measurement should arrive as. */
  function TelemetryOf(model: map<Key, PacketDef>, m: Measurement): Telemetry
    requires Measurable(model, m)
  {
    Telemetry(model[m.key].deviceName, Expected(model[m.key].fields, m.raws))
  }

  lemma FrameDecodes(model: map<Key, PacketDef>, m: Measurement)
    requires Measurable(model, m)
    ensures Decoding(FrameOf(model, m), model[m.key]) == TelemetryOf(model, m)
  {
    LayoutRoundTrip(Zeros(4 * m.blocks), model[m.key].fields, m.raws);
  }

  ghost predicate AllMeasurable(model: map<Key, PacketDef>, ms: seq<Measurement>) {
    forall m | m in ms :: Measurable(model, m)
  }

  function FramesOf(model: map<Key, PacketDef>, ms: seq<Measurement>): (fs: seq<Frame>)
    requires AllMeasurable(model, ms)
    ensures |fs| == |ms| && forall i | 0 <= i < |fs| :: fs[i] == FrameOf(model, ms[i])
  {
    if ms == [] then [] else FramesOf(model, ms[..|ms| - 1]) + [FrameOf(model, ms[|ms| - 1])]
  }

  /** Frame i is known and decodes to measurement i. */
  ghost predicate Arrived(model: map<Key, PacketDef>, ms: seq<Measurement>, frames: seq<Frame>)
    requires AllMeasurable(model, ms)
  {
    |frames| == |ms| && forall i | 0 <= i < |ms| ::
      FrameKey(frames[i]) in model && Decoding(frames[i], model[FrameKey(frames[i])]) == TelemetryOf(model, ms[i])
  }

  lemma FramesArrive(model: map<Key, PacketDef>, ms: seq<Measurement>)
    requires AllMeasurable(model, ms)
    ensures Arrived(model, ms, FramesOf(model, ms))
    ensures forall f | f in FramesOf(model, ms) :: Whole(f)
  {
    hide FrameOf, TelemetryOf, Measurable, Decoding;
    var fs := FramesOf(model, ms);
    forall i | 0 <= i < |ms|
      ensures FrameKey(fs[i]) in model && Decoding(fs[i], model[FrameKey(fs[i])]) == TelemetryOf(model, ms[i])
    {
      assert ms[i] in ms;
      MeasurableKnown(model, ms[i]);
      FrameDecodes(model, ms[i]);
    }
  }

  lemma MeasurableKnown(model: map<Key, PacketDef>, m: Measurement)
    requires Measurable(model, m)
    ensures m.key in model
  {
  }

  /** Measurements of any registered devices, written into payloads, encoded, sent over a line with SYNC-free noise and
      received in whatever chunks: one frame per measurement comes out, known to the registry and decoding to the
      values measured, in order. */
  lemma TelemetrySurvives(model: map<Key, PacketDef>, ms: seq<Measurement>, noise: seq<seq<byte>>)
    requires AllMeasurable(model, ms)
    requires |noise| == |ms| && forall g | g in noise :: SYNC !in g
    ensures forall chunks | Concat(chunks) == Stream(noise, FramesOf(model, ms)) ::
      FeedAll(chunks).1 == [] && Arrived(model, ms, FeedAll(chunks).0)
  {
    hide *;
    FramesArrive(model, ms);
    StreamRoundTrip(noise, FramesOf(model, ms));
  }

  /** The chunks bring exactly these measurements, each after some SYNC-free noise. */
  ghost predicate Carries(chunks: seq<seq<byte>>, model: map<Key, PacketDef>, ms: seq<Measurement>,
                          noise: seq<seq<byte>>)
    requires AllMeasurable(model, ms)
  {
    && |noise| == |ms| && (forall g | g in noise :: SYNC !in g)
    && Concat(chunks) == Stream(noise, FramesOf(model, ms))
  }

  /** The telemetry is that of the measurements, in order. */
  ghost predicate AllReceived(model: map<Key, PacketDef>, ms: seq<Measurement>, ts: seq<Telemetry>)
    requires AllMeasurable(model, ms)
  {
    |ts| == |ms| && forall i | 0 <= i < |ms| :: ts[i] == TelemetryOf(model, ms[i])
  }

  /** The telemetry is that of the frames known to the registry. */
  ghost predicate AllDecodings(model: map<Key, PacketDef>, frames: seq<Frame>, ts: seq<Telemetry>) {
    |ts| == |frames| && forall i | 0 <= i < |ts| ::
      FrameKey(frames[i]) in model ==> ts[i] == Decoding(frames[i], model[FrameKey(frames[i])])
  }

  lemma CarriedArrives(chunks: seq<seq<byte>>, model: map<Key, PacketDef>, ms: seq<Measurement>,
                       noise: seq<seq<byte>>, ts: seq<Telemetry>)
    requires AllMeasurable(model, ms) && Carries(chunks, model, ms, noise)
    requires AllDecodings(model, Output(Concat(chunks)), ts)
    ensures AllReceived(model, ms, ts)
  {
    TelemetrySurvives(model, ms, noise);
    ChunkingInvariance(chunks);
    hide Output, Concat, Stream, FramesOf, FeedAll, TelemetryOf, AllMeasurable, Decoding;
    assert Arrived(model, ms, FeedAll(chunks).0);
  }

  /** The receiving side as it runs: one parser fed chunk by chunk, every frame decoded with the registry. Whatever
      measurements the chunks carry come out as their telemetry. */
  method ReceiveTelemetry(reg: Registry, chunks: seq<seq<byte>>) returns (ts: seq<Telemetry>)
    requires reg.Valid()
    ensures forall ms, noise | AllMeasurable(reg.model, ms) && Carries(chunks, reg.model, ms, noise) ::
      AllReceived(reg.model, ms, ts)
  {
    hide Carries, AllReceived, AllMeasurable, Output, Concat, Decoding;
    var parser := new Parser();
    var frames := FeedChunks(parser, chunks);
    ts := [];
    for i := 0 to |frames|
      invariant reg.Valid()
      invariant AllDecodings(reg.model, frames[..i], ts)
    {
      var t, known := Decode(frames[i], reg);
      ts := ts + [t];
    }
    assert frames[..|frames|] == frames;
    forall ms, noise | AllMeasurable(reg.model, ms) && Carries(chunks, reg.model, ms, noise)
      ensures AllReceived(reg.model, ms, ts)
    {
      CarriedArrives(chunks, reg.model, ms, noise, ts);
    }
  }
}
