// The reference encoder, in the step-by-step form it is written in.
module Encoder {
  import opened Bytes
  import opened Wire

  /** The eighth bits of the first j data bytes. */
  function Collected(p: seq<byte>, j: nat): int
    requires j <= |p| == 4
  {
    if j == 0 then 0 else Collected(p, j - 1) + if p[j - 1] >= 0x80 then [1, 2, 4, 8][j - 1] else 0
  }

  lemma CollectedStep(p: seq<byte>, j: nat)
    requires j < |p| == 4
    ensures Collected(p, j + 1) == if p[j] >= 0x80 then Collected(p, j) + [1, 2, 4, 8][j] else Collected(p, j)
    ensures 0 <= Collected(p, j) < [1, 2, 4, 8][j]
  {
    if j > 0 {
      CollectedStep(p, j - 1);
    }
  }

  lemma CollectedAll(p: seq<byte>)
    requires |p| == 4
    ensures Collected(p, 4) == Septett(p)
  {
    assert Collected(p, 0) == 0;
    assert Collected(p, 2) == Bit7(p[0]) + 2 * Bit7(p[1]);
  }

  /** Splits the eighth bits off four data bytes, in place, into a septett byte. */
  method SplitSeptett(raw: array<byte>) returns (septett: byte)
    requires raw.Length == 4
    modifies raw
    ensures raw[..] == [Low7(old(raw[0])), Low7(old(raw[1])), Low7(old(raw[2])), Low7(old(raw[3]))]
    ensures septett == Septett(old(raw[..]))
  {
    septett := 0;
    var bit: byte := 1;
    for j := 0 to 4
      invariant bit == [1, 2, 4, 8, 16][j]
      invariant forall k | 0 <= k < j :: raw[k] == Low7(old(raw[k]))
      invariant forall k | j <= k < 4 :: raw[k] == old(raw[k])
      invariant septett == Collected(old(raw[..]), j)
    {
      CollectedStep(old(raw[..]), j);
      if raw[j] >= 0x80 {
        septett := septett + bit;
        raw[j] := raw[j] - 0x80;
      }
      bit := 2 * bit;
    }
    CollectedAll(old(raw[..]));
  }

  lemma PaddedByte(payload: seq<byte>, i: nat, j: nat)
    requires 4 * i < |payload| && j < 4
    ensures 4 * i + 4 <= |Padded(payload)|
    ensures Padded(payload)[4 * i + j] == if i * 4 + j < |payload| then payload[i * 4 + j] else 0
  {
  }

  lemma SubFrameIs(q: seq<byte>)
    requires |q| == 4
    ensures var body := [Low7(q[0]), Low7(q[1]), Low7(q[2]), Low7(q[3])] + [Septett(q)];
      EncodeBlock(q) == body + [Checksum(body)]
  {
    hide Low7, Septett, Checksum;
    var data := [Low7(q[0]), Low7(q[1]), Low7(q[2]), Low7(q[3])];
    assert data + [Septett(q)] == [data[0], data[1], data[2], data[3], Septett(q)];
  }

  /** Sub-frame i of the payload, with zeros where the payload has ended. */
  method BuildBlock(payload: seq<byte>, i: nat) returns (sf: seq<byte>)
    requires 4 * i < |payload|
    ensures sf == EncodeBlock(Padded(payload)[4 * i..4 * i + 4])
  {
    hide *;
    PaddedByte(payload, i, 0);
    ghost var q := Padded(payload)[4 * i..4 * i + 4];
    var raw := new byte[4](_ => 0);
    for j := 0 to 4
      invariant forall k | 0 <= k < j :: raw[k] == q[k]
      invariant forall k | j <= k < 4 :: raw[k] == 0
    {
      PaddedByte(payload, i, j);
      var idx := i * 4 + j;
      if idx < |payload| {
        raw[j] := payload[idx];
      }
    }
    assert raw[..] == q;
    SubFrameIs(q);
    var septett := SplitSeptett(raw);
    sf := raw[..] + [septett];
    var cs := ComputeChecksum(sf);
    sf := sf + [cs];
  }

  method BuildHeader(dst: u16, src: u16, cmd: u16, nFrames: nat) returns (header: seq<byte>)
    ensures header == EncodeHeader(dst, src, cmd, nFrames)
  {
    header := [SYNC, LoByte(dst), HiByte(dst), LoByte(src), HiByte(src), VERSION1,
               LoByte(cmd), HiByte(cmd), nFrames % 0x100];
    var cs := ComputeChecksum(header[1..]);
    header := header + [cs];
  }

  lemma NoBlocks(q: seq<byte>)
    ensures EncodeBlocks(q[..0]) == []
  {
  }

  lemma NextBlock(q: seq<byte>, i: nat)
    requires 4 * i + 4 <= |q|
    ensures EncodeBlocks(q[..4 * (i + 1)]) == EncodeBlocks(q[..4 * i]) + EncodeBlock(q[4 * i..4 * i + 4])
  {
    assert q[..4 * (i + 1)] == q[..4 * i] + q[4 * i..4 * i + 4];
    EncodeBlocksSnoc(q[..4 * i], q[4 * i..4 * i + 4]);
  }

  method BuildData(payload: seq<byte>) returns (data: seq<byte>)
    ensures data == EncodeBlocks(Padded(payload))
  {
    var nFrames := (|payload| + 3) / 4;
    data := [];
    BlockCountPadded(payload);
    NoBlocks(Padded(payload));
    hide Padded, EncodeBlocks, EncodeBlock;
    for i := 0 to nFrames
      invariant data == EncodeBlocks(Padded(payload)[..4 * i])
    {
      var sf := BuildBlock(payload, i);
      NextBlock(Padded(payload), i);
      data := data + sf;
    }
    assert Padded(payload)[..4 * nFrames] == Padded(payload);
  }

  /** Builds a telegram: header, then the sub-frames of the payload one after the other. */
  method BuildFrame(dst: u16, src: u16, cmd: u16, payload: seq<byte>) returns (w: seq<byte>)
    ensures w == Encode(dst, src, cmd, payload)
  {
    var header := BuildHeader(dst, src, cmd, (|payload| + 3) / 4);
    w := BuildData(payload);
    w := header + w;
  }
}
