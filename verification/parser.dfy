// The incremental parser: accumulates raw bytes and emits complete frames.
module VBusParser {
  import opened Bytes
  import opened Wire
  import opened Scanner

  /** Skipping bytes that are not SYNC is a run of junk decisions. */
  lemma {:induction false} ScanSkipsToSync(t: seq<byte>, k: nat)
    requires k <= |t| && SYNC !in t[..k]
    ensures Output(t) == Output(t[k..]) && Rest(t) == Rest(t[k..])
  {
    if k == 0 {
      assert t[0..] == t;
    } else {
      assert t[0] == t[..k][0];
      assert t[1..][..k - 1] == t[..k][1..];
      ScanSkipsToSync(t[1..], k - 1);
      assert t[1..][k - 1..] == t[k..];
      FramesConcat([Junk(t[0])], Scan(t[1..]).segments);
    }
  }

  /** Dropping one byte after a failed check. */
  lemma ScanRejects(t: seq<byte>)
    requires !Pending(t) && !StartsTelegram(t)
    ensures Output(t) == Output(t[1..]) && Rest(t) == Rest(t[1..])
  {
    FramesConcat([Junk(t[0])], Scan(t[1..]).segments);
  }

  lemma ScanWaits(t: seq<byte>)
    ensures Pending([])
    ensures Pending(t) ==> Output(t) == [] && Rest(t) == t
  {
  }

  lemma ScanAccepts(t: seq<byte>)
    requires StartsTelegram(t)
    ensures WellFormed(t[..Announced(t)])
    ensures Output(t) == [Decoded(t[..Announced(t)])] + Output(t[Announced(t)..])
    ensures Rest(t) == Rest(t[Announced(t)..])
  {
    TelegramPrefix(t);
    FramesConcat([Telegram(t[..Announced(t)])], Scan(t[Announced(t)..]).segments);
  }

  /** The data bytes of one sub-frame with bit 7 restored in place. */
  method RestoreBits(raw: seq<byte>, septett: byte) returns (decoded: array<byte>)
    requires |raw| == 4
    ensures fresh(decoded)
    ensures decoded[..] == [Restore(raw[0], septett, 0), Restore(raw[1], septett, 1),
                            Restore(raw[2], septett, 2), Restore(raw[3], septett, 3)]
  {
    decoded := new byte[4](j requires 0 <= j < 4 => raw[j]);
    for j := 0 to 4
      invariant forall k | 0 <= k < j :: decoded[k] == Restore(raw[k], septett, k)
      invariant forall k | j <= k < 4 :: decoded[k] == raw[k]
    {
      if BitSet(septett, j) {
        decoded[j] := WithBit7(decoded[j]);
      }
    }
  }

  /** How the sub-frames before block i + 1 relate to those before block i. */
  lemma NextBlock(data: seq<byte>, i: nat)
    requires BLOCK * (i + 1) <= |data|
    ensures BlocksOk(data[..BLOCK * (i + 1)]) <==> BlocksOk(data[..BLOCK * i]) && BlockOk(Block(data, i))
    ensures DecodeBlocks(data[..BLOCK * (i + 1)]) == DecodeBlocks(data[..BLOCK * i]) + DecodeBlock(Block(data, i))
  {
    assert data[..BLOCK * (i + 1)] == data[..BLOCK * i] + Block(data, i);
    BlocksOkSnoc(data[..BLOCK * i], Block(data, i));
    DecodeBlocksSnoc(data[..BLOCK * i], Block(data, i));
  }

  /** Decodes a run of sub-frames, giving up at the first bad checksum. */
  method DecodeSubFrames(data: seq<byte>, nFrames: nat) returns (payload: seq<byte>, ok: bool)
    requires |data| == nFrames * BLOCK
    ensures ok <==> BlocksOk(data)
    ensures payload == if ok then DecodeBlocks(data) else []
  {
    payload := [];
    for i := 0 to nFrames
      invariant BlocksOk(data[..BLOCK * i])
      invariant payload == DecodeBlocks(data[..BLOCK * i])
    {
      NextBlock(data, i);
      var block := Block(data, i);
      var want := ComputeChecksum(block[..5]);
      if block[5] != want {
        assert !BlockOk(Block(data, i));
        return [], false;
      }
      var decoded := RestoreBits(block[..4], block[4]);
      payload := payload + decoded[..];
    }
    assert data[..BLOCK * nFrames] == data;
    ok := true;
  }

  datatype Verdict = Wait | Reject | Accept(frame: Frame, length: nat)

  /** The checks the source runs once a SYNC heads the buffer, in its order. */
  method CheckHead(b: seq<byte>) returns (v: Verdict)
    requires b != [] && b[0] == SYNC
    ensures v.Wait? <==> Pending(b)
    ensures v.Reject? <==> !Pending(b) && !StartsTelegram(b)
    ensures v.Accept? ==> StartsTelegram(b) && v.length == Announced(b) && WellFormed(b[..v.length])
    ensures v.Accept? ==> v.frame == Decoded(b[..v.length])
  {
    if |b| < HEADER {
      return Wait;
    }
    var ver := b[5];
    if ver != VERSION1 {
      return Reject;
    }
    var dst := Le16(b[1], b[2]);
    var src := Le16(b[3], b[4]);
    var cmd := Le16(b[6], b[7]);
    var nFrames: nat := b[8];
    var hdrCS := b[9];
    var want := ComputeChecksum(b[1..9]);
    if hdrCS != want {
      return Reject;
    }
    var totalLen := HEADER + nFrames * BLOCK;
    if |b| < totalLen {
      return Wait;
    }
    var payload, ok := DecodeSubFrames(b[HEADER..HEADER + nFrames * BLOCK], nFrames);
    if !ok {
      return Reject;
    }
    TelegramPrefix(b);
    assert b[..totalLen][HEADER..] == b[HEADER..totalLen];
    v := Accept(Frame(dst, src, cmd, payload), totalLen);
  }

  class Parser {
    var buf: seq<byte>
    ghost var fed: seq<byte>        // every byte received so far
    ghost var emitted: seq<Frame>   // every frame returned so far

    /** The frames returned are those of the one declarative parse of all bytes received,
        and exactly its undecided rest is retained. */
    ghost predicate Valid()
      reads this
    {
      emitted == Output(fed) && buf == Rest(fed)
    }

    constructor ()
      ensures Valid() && fed == [] && emitted == [] && buf == []
    {
      buf, fed, emitted := [], [], [];
    }

    method Feed(data: seq<byte>) returns (out: seq<Frame>)
      requires Valid()
      modifies this
      ensures Valid()
      ensures fed == old(fed) + data
      ensures emitted == old(emitted) + out
      ensures out == Output(old(buf) + data)
    {
      OutputResumes(fed, data);
      buf := buf + data;
      out := Drain();
      fed, emitted := fed + data, emitted + out;
    }

    method Drain() returns (out: seq<Frame>)
      modifies `buf
      ensures out == Output(old(buf))
      ensures buf == Rest(old(buf))
    {
      hide *;
      out := [];
      var b := buf;
      while true
        invariant Output(buf) == out + Output(b)
        invariant Rest(buf) == Rest(b)
        invariant buf == old(buf)
        decreases |b|
      {
        if |b| == 0 || b[0] != SYNC {
          var idx := FindSync(b);
          if idx < 0 {
            assert b[..|b|] == b && b[|b|..] == [];
            ScanSkipsToSync(b, |b|);
            b := [];
            ScanWaits(b);
            break;
          }
          ScanSkipsToSync(b, idx);
          b := b[idx..];
        }

        var verdict := CheckHead(b);
        match verdict {
          case Wait =>
            ScanWaits(b);
            break;
          case Reject =>
            ScanRejects(b);
            b := b[1..];
          case Accept(frame, totalLen) =>
            ScanAccepts(b);
            out := out + [frame];
            b := b[totalLen..];
        }
      }
      buf := b;
    }
  }

  /** The index of the first SYNC, or -1. */
  method FindSync(b: seq<byte>) returns (idx: int)
    ensures -1 <= idx < |b|
    ensures idx < 0 ==> SYNC !in b
    ensures idx >= 0 ==> b[idx] == SYNC && SYNC !in b[..idx]
  {
    for i := 0 to |b|
      invariant SYNC !in b[..i]
    {
      if b[i] == SYNC {
        return i;
      }
    }
    idx := -1;
  }

  /** One parser, any chunks: the frames of the whole stream come out, in order. */
  method FeedChunks(p: Parser, chunks: seq<seq<byte>>) returns (out: seq<Frame>)
    requires p.Valid() && p.fed == []
    modifies p
    ensures p.Valid()
    ensures p.fed == Concat(chunks) && out == p.emitted == Output(Concat(chunks))
  {
    out := [];
    for i := 0 to |chunks|
      invariant p.Valid()
      invariant p.fed == Concat(chunks[..i]) && out == p.emitted
    {
      assert chunks[..i + 1][..i] == chunks[..i];
      var frames := p.Feed(chunks[i]);
      out := out + frames;
    }
    assert chunks[..|chunks|] == chunks;
  }
}
