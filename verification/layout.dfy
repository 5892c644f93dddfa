// Writing raw values into a payload and reading them back through a packet definition.
module Layout {
  import opened Bytes
  import opened Wire
  import opened Rounding
  import opened Registries
  import opened Options

  predicate Numeric(kind: FieldType) { kind.Int16? || kind.Uint8? || kind.Uint16? || kind.Uint32? }

  function Width(kind: FieldType): nat
    requires Numeric(kind)
  {
    match kind
    case Uint8 => 1
    case Uint32 => 4
    case _ => 2
  }

  predicate InRange(kind: FieldType, raw: int)
    requires Numeric(kind)
  {
    match kind
    case Uint8 => 0 <= raw < 0x100
    case Uint32 => 0 <= raw < 0x1_0000_0000
    case Int16 => -0x8000 <= raw < 0x8000
    case _ => 0 <= raw < 0x1_0000
  }

  function Word(x: u16): seq<byte> { [LoByte(x), HiByte(x)] }

  /** The little-endian bytes of a raw value, negative ones in two's complement. */
  function LittleEndian(kind: FieldType, raw: int): (b: seq<byte>)
    requires Numeric(kind) && InRange(kind, raw)
    ensures |b| == Width(kind)
  {
    if kind.Uint8? then [raw]
    else if kind.Uint32? then Word(raw % 0x1_0000) + Word(raw / 0x1_0000)
    else Word(raw % 0x1_0000)
  }

  /** Reading depends on the bytes of the field alone. */
  lemma ReadIsLocal(p: seq<byte>, q: seq<byte>, kind: FieldType, offset: nat)
    requires Numeric(kind) && offset + Width(kind) <= |p| && offset + Width(kind) <= |q|
    requires p[offset..offset + Width(kind)] == q[offset..offset + Width(kind)]
    ensures ReadRaw(p, kind, offset) == ReadRaw(q, kind, offset)
  {
    var w := Width(kind);
    var b, c := p[offset..offset + w], q[offset..offset + w];
    assert p[offset] == b[0] && q[offset] == c[0];
    assert w >= 2 ==> p[offset + 1] == b[1] && q[offset + 1] == c[1];
    assert w == 4 ==> p[offset + 2] == b[2] && q[offset + 2] == c[2];
    assert w == 4 ==> p[offset + 3] == b[3] && q[offset + 3] == c[3];
  }

  lemma WordAt(p: seq<byte>, offset: nat, x: u16)
    requires offset + 2 <= |p| && p[offset..offset + 2] == Word(x)
    ensures Le16(p[offset], p[offset + 1]) == x
  {
    var b := p[offset..offset + 2];
    assert p[offset] == b[0] && p[offset + 1] == b[1];
    Le16Bytes(x);
  }

  lemma LongAt(p: seq<byte>, offset: nat, lo: u16, hi: u16)
    requires offset + 4 <= |p| && p[offset..offset + 4] == Word(lo) + Word(hi)
    ensures Le32(p[offset], p[offset + 1], p[offset + 2], p[offset + 3]) == lo + 0x1_0000 * hi
  {
    var b := p[offset..offset + 4];
    assert p[offset..offset + 2] == b[..2] == Word(lo);
    assert p[offset + 2..offset + 4] == b[2..] == Word(hi);
    WordAt(p, offset, lo);
    WordAt(p, offset + 2, hi);
  }

  lemma SignedResidue(raw: int)
    requires -0x8000 <= raw < 0x8000
    ensures AsInt16(raw % 0x1_0000) == raw
  {
    assert raw % 0x1_0000 == if raw < 0 then raw + 0x1_0000 else raw;
  }

  lemma ReadWord(p: seq<byte>, offset: nat, x: u16)
    requires offset + 2 <= |p| && p[offset..offset + 2] == Word(x)
    ensures ReadRaw(p, Uint16, offset) == Some(x) && ReadRaw(p, Int16, offset) == Some(AsInt16(x))
  {
    WordAt(p, offset, x);
    hide Le16, Word, AsInt16;
  }

  lemma ReadLong(p: seq<byte>, offset: nat, raw: int)
    requires InRange(Uint32, raw) && offset + 4 <= |p|
    requires p[offset..offset + 4] == Word(raw % 0x1_0000) + Word(raw / 0x1_0000)
    ensures ReadRaw(p, Uint32, offset) == Some(raw)
  {
    LongAt(p, offset, raw % 0x1_0000, raw / 0x1_0000);
    hide Le32, Word;
  }

  lemma ReadLittleEndian(p: seq<byte>, kind: FieldType, offset: nat, raw: int)
    requires Numeric(kind) && InRange(kind, raw) && offset + Width(kind) <= |p|
    requires p[offset..offset + Width(kind)] == LittleEndian(kind, raw)
    ensures ReadRaw(p, kind, offset) == Some(raw)
  {
    hide Word, AsInt16;
    if kind.Uint8? {
      assert p[offset] == p[offset..offset + 1][0];
    } else if kind.Uint32? {
      hide ReadRaw;
      ReadLong(p, offset, raw);
    } else {
      hide ReadRaw;
      ReadWord(p, offset, raw % 0x1_0000);
      if kind.Int16? {
        SignedResidue(raw);
      }
    }
  }

  // ---- Layouts -----------------------------------------------------------------------------------

  /** All fields are whole numbers of bytes inside a payload of the given size. */
  predicate Fits(defs: seq<FieldDef>, size: nat) {
    forall i | 0 <= i < |defs| :: Numeric(defs[i].kind) && defs[i].offset + Width(defs[i].kind) <= size
  }

  predicate Apart(a: FieldDef, b: FieldDef)
    requires Numeric(a.kind) && Numeric(b.kind)
  {
    a.offset + Width(a.kind) <= b.offset || b.offset + Width(b.kind) <= a.offset
  }

  predicate PairwiseApart(defs: seq<FieldDef>, size: nat)
    requires Fits(defs, size)
  {
    forall i, j | 0 <= i < j < |defs| :: Apart(defs[i], defs[j])
  }

  predicate AllInRange(defs: seq<FieldDef>, raws: seq<int>, size: nat)
    requires Fits(defs, size)
  {
    |raws| == |defs| && forall i | 0 <= i < |defs| :: InRange(defs[i].kind, raws[i])
  }

  function Put(p: seq<byte>, offset: nat, b: seq<byte>): (q: seq<byte>)
    requires offset + |b| <= |p|
    ensures |q| == |p|
    ensures forall i | 0 <= i < |p| :: q[i] == if offset <= i < offset + |b| then b[i - offset] else p[i]
  {
    p[..offset] + b + p[offset + |b|..]
  }

  /** Writes the raw values of all fields, in definition order. */
  function WriteAll(p: seq<byte>, defs: seq<FieldDef>, raws: seq<int>): (q: seq<byte>)
    requires Fits(defs, |p|) && AllInRange(defs, raws, |p|)
    ensures |q| == |p|
  {
    if defs == [] then p
    else
      var n := |defs| - 1;
      Put(WriteAll(p, defs[..n], raws[..n]), defs[n].offset, LittleEndian(defs[n].kind, raws[n]))
  }

  lemma ReadWritten(q: seq<byte>, fd: FieldDef, raw: int)
    requires Numeric(fd.kind) && fd.offset + Width(fd.kind) <= |q| && InRange(fd.kind, raw)
    ensures ReadRaw(Put(q, fd.offset, LittleEndian(fd.kind, raw)), fd.kind, fd.offset) == Some(raw)
  {
    var r := Put(q, fd.offset, LittleEndian(fd.kind, raw));
    assert r[fd.offset..fd.offset + Width(fd.kind)] == LittleEndian(fd.kind, raw);
    ReadLittleEndian(r, fd.kind, fd.offset, raw);
  }

  lemma ReadUnwritten(q: seq<byte>, fd: FieldDef, other: FieldDef, raw: int)
    requires Numeric(fd.kind) && fd.offset + Width(fd.kind) <= |q|
    requires Numeric(other.kind) && other.offset + Width(other.kind) <= |q| && InRange(other.kind, raw)
    requires Apart(fd, other)
    ensures ReadRaw(Put(q, other.offset, LittleEndian(other.kind, raw)), fd.kind, fd.offset)
         == ReadRaw(q, fd.kind, fd.offset)
  {
    var r := Put(q, other.offset, LittleEndian(other.kind, raw));
    assert r[fd.offset..fd.offset + Width(fd.kind)] == q[fd.offset..fd.offset + Width(fd.kind)];
    ReadIsLocal(r, q, fd.kind, fd.offset);
  }

  /** Fields that do not overlap keep their values whatever is written to the others. */
  lemma {:induction false} ReadBack(p: seq<byte>, defs: seq<FieldDef>, raws: seq<int>, i: nat)
    requires Fits(defs, |p|) && PairwiseApart(defs, |p|) && AllInRange(defs, raws, |p|) && i < |defs|
    ensures ReadRaw(WriteAll(p, defs, raws), defs[i].kind, defs[i].offset) == Some(raws[i])
  {
    hide ReadRaw, Put, LittleEndian;
    var n := |defs| - 1;
    var q := WriteAll(p, defs[..n], raws[..n]);
    if i == n {
      ReadWritten(q, defs[n], raws[n]);
    } else {
      ReadBack(p, defs[..n], raws[..n], i);
      assert Apart(defs[i], defs[n]);
      ReadUnwritten(q, defs[i], defs[n], raws[n]);
    }
  }

  // ---- Overlap is exactly what destroys values ---------------------------------------------------

  function AllOnes(kind: FieldType): (raw: int)
    requires Numeric(kind)
    ensures InRange(kind, raw)
  {
    match kind
    case Uint8 => 0xFF
    case Uint32 => 0xFFFF_FFFF
    case Int16 => -1
    case _ => 0xFFFF
  }

  /** Field k gets zero and every other field all ones. */
  function Probe(defs: seq<FieldDef>, k: nat, size: nat): (raws: seq<int>)
    requires Fits(defs, size)
    ensures AllInRange(defs, raws, size)
    ensures forall i | 0 <= i < |defs| :: raws[i] == if i == k then 0 else AllOnes(defs[i].kind)
  {
    seq(|defs|, i requires 0 <= i < |defs| => if i == k then 0 else AllOnes(defs[i].kind))
  }

  lemma OnesBytes(kind: FieldType, i: nat)
    requires Numeric(kind) && i < Width(kind)
    ensures LittleEndian(kind, AllOnes(kind))[i] == 0xFF
  {
    assert !kind.Uint8? ==> AllOnes(kind) % 0x1_0000 == 0xFFFF;
    assert Word(0xFFFF) == [0xFF, 0xFF];
    assert kind.Uint32? ==> LittleEndian(kind, AllOnes(kind)) == Word(0xFFFF) + Word(0xFFFF);
  }

  lemma ProbePrefix(defs: seq<FieldDef>, k: nat, size: nat, n: nat)
    requires Fits(defs, size) && n <= |defs|
    ensures Probe(defs, k, size)[..n] == Probe(defs[..n], k, size)
  {
  }

  /** Writing all ones puts 0xFF into the field and leaves the rest alone. */
  lemma OnesPut(q: seq<byte>, fd: FieldDef, x: nat)
    requires Numeric(fd.kind) && fd.offset + Width(fd.kind) <= |q| && x < |q|
    ensures Put(q, fd.offset, LittleEndian(fd.kind, AllOnes(fd.kind)))[x] ==
            if fd.offset <= x < fd.offset + Width(fd.kind) then 0xFF else q[x]
  {
    hide LittleEndian, AllOnes, Width;
    if fd.offset <= x < fd.offset + Width(fd.kind) {
      OnesBytes(fd.kind, x - fd.offset);
    }
  }

  lemma WriteStep(p: seq<byte>, defs: seq<FieldDef>, raws: seq<int>, n: nat)
    requires Fits(defs, |p|) && AllInRange(defs, raws, |p|) && n == |defs| - 1
    ensures Fits(defs[..n], |p|) && AllInRange(defs[..n], raws[..n], |p|)
    ensures Numeric(defs[n].kind) && InRange(defs[n].kind, raws[n]) && defs[n].offset + Width(defs[n].kind) <= |p|
    ensures WriteAll(p, defs, raws) ==
            Put(WriteAll(p, defs[..n], raws[..n]), defs[n].offset, LittleEndian(defs[n].kind, raws[n]))
  {
    hide LittleEndian, Put, Width, InRange;
  }

  lemma ProbeStep(p: seq<byte>, defs: seq<FieldDef>, k: nat, n: nat)
    requires Fits(defs, |p|) && n == |defs| - 1 && k < n
    ensures Fits(defs[..n], |p|) && Numeric(defs[n].kind) && defs[n].offset + Width(defs[n].kind) <= |p|
    ensures WriteAll(p, defs, Probe(defs, k, |p|)) ==
            Put(WriteAll(p, defs[..n], Probe(defs[..n], k, |p|)), defs[n].offset,
                LittleEndian(defs[n].kind, AllOnes(defs[n].kind)))
  {
    hide *;
    WriteStep(p, defs, Probe(defs, k, |p|), n);
    ProbePrefix(defs, k, |p|, n);
  }

  /** A byte covered by some field after k, and by none with other contents, holds 0xFF under the probe. */
  lemma {:induction false} ProbeByte(p: seq<byte>, defs: seq<FieldDef>, k: nat, j: nat, x: nat)
    requires Fits(defs, |p|) && k < j < |defs|
    requires defs[j].offset <= x < defs[j].offset + Width(defs[j].kind) <= |p|
    ensures WriteAll(p, defs, Probe(defs, k, |p|))[x] == 0xFF
  {
    hide *;
    var n := |defs| - 1;
    ProbeStep(p, defs, k, n);
    OnesPut(WriteAll(p, defs[..n], Probe(defs[..n], k, |p|)), defs[n], x);
    if j < n {
      if !(defs[n].offset <= x < defs[n].offset + Width(defs[n].kind)) {
        ProbeByte(p, defs[..n], k, j, x);
      }
    }
  }

  lemma WordZero(lo: byte, hi: byte)
    ensures Le16(lo, hi) == 0 || AsInt16(Le16(lo, hi)) == 0 ==> lo == 0 && hi == 0
  {
  }

  lemma LongZero(b0: byte, b1: byte, b2: byte, b3: byte)
    ensures Le32(b0, b1, b2, b3) == 0 ==> b0 == 0 && b1 == 0 && b2 == 0 && b3 == 0
  {
  }

  lemma ZeroWordRead(p: seq<byte>, kind: FieldType, offset: nat)
    requires (kind.Int16? || kind.Uint16?) && ReadRaw(p, kind, offset) == Some(0)
    ensures offset + 2 <= |p| && p[offset] == 0 && p[offset + 1] == 0
  {
    if offset + 2 <= |p| {
      WordZero(p[offset], p[offset + 1]);
    }
  }

  lemma ZeroLongRead(p: seq<byte>, offset: nat)
    requires ReadRaw(p, Uint32, offset) == Some(0)
    ensures offset + 4 <= |p|
    ensures p[offset] == 0 && p[offset + 1] == 0 && p[offset + 2] == 0 && p[offset + 3] == 0
  {
    hide Le32;
    if offset + 4 <= |p| {
      LongZero(p[offset], p[offset + 1], p[offset + 2], p[offset + 3]);
    }
  }

  lemma ZeroByteRead(p: seq<byte>, offset: nat)
    requires ReadRaw(p, Uint8, offset) == Some(0)
    ensures offset < |p| && p[offset] == 0
  {
  }

  lemma ZeroRead(p: seq<byte>, kind: FieldType, offset: nat, x: nat)
    requires Numeric(kind) && offset <= x < offset + Width(kind) <= |p|
    requires ReadRaw(p, kind, offset) == Some(0)
    ensures p[x] == 0
  {
    hide ReadRaw;
    if kind.Uint32? {
      ZeroLongRead(p, offset);
      assert x == offset || x == offset + 1 || x == offset + 2 || x == offset + 3;
    } else if kind.Uint8? {
      ZeroByteRead(p, offset);
    } else {
      ZeroWordRead(p, kind, offset);
      assert x == offset || x == offset + 1;
    }
  }

  ghost predicate ReadsBack(p: seq<byte>, defs: seq<FieldDef>, raws: seq<int>, i: nat)
    requires Fits(defs, |p|) && AllInRange(defs, raws, |p|) && i < |defs|
  {
    ReadRaw(WriteAll(p, defs, raws), defs[i].kind, defs[i].offset) == Some(raws[i])
  }

  /** Every raw value written through the definitions can be read back. */
  ghost predicate Faithful(defs: seq<FieldDef>, size: nat)
    requires Fits(defs, size)
  {
    forall p: seq<byte>, raws: seq<int>, i: nat | |p| == size && AllInRange(defs, raws, size) && i < |defs| ::
      ReadsBack(p, defs, raws, i)
  }

  lemma ProbeFails(p: seq<byte>, defs: seq<FieldDef>, i: nat, j: nat)
    requires Fits(defs, |p|) && i < j < |defs| && !Apart(defs[i], defs[j])
    ensures !ReadsBack(p, defs, Probe(defs, i, |p|), i)
  {
    var a, b, raws := defs[i], defs[j], Probe(defs, i, |p|);
    var x := if a.offset >= b.offset then a.offset else b.offset;
    assert Fits(defs, |p|) && a.offset <= x < a.offset + Width(a.kind) <= |p|;
    ProbeByte(p, defs, i, j, x);
    if ReadsBack(p, defs, raws, i) {
      ZeroRead(WriteAll(p, defs, raws), a.kind, a.offset, x);
    }
  }

  lemma OverlapDestroys(defs: seq<FieldDef>, size: nat, i: nat, j: nat)
    requires Fits(defs, size) && i < j < |defs| && !Apart(defs[i], defs[j])
    ensures !Faithful(defs, size)
  {
    var p: seq<byte> := seq(size, _ => 0);
    ProbeFails(p, defs, i, j);
    assert AllInRange(defs, Probe(defs, i, size), size);
  }

  /** A definition keeps all values apart exactly when its fields do not overlap. */
  lemma FaithfulIff(defs: seq<FieldDef>, size: nat)
    requires Fits(defs, size)
    ensures Faithful(defs, size) <==> PairwiseApart(defs, size)
  {
    if PairwiseApart(defs, size) {
      forall p: seq<byte>, raws: seq<int>, i: nat | |p| == size && AllInRange(defs, raws, size) && i < |defs|
        ensures ReadsBack(p, defs, raws, i)
      {
        ReadBack(p, defs, raws, i);
      }
    } else {
      var i, j :| 0 <= i < j < |defs| && !Apart(defs[i], defs[j]);
      OverlapDestroys(defs, size, i, j);
    }
  }

  // ---- Telemetry ---------------------------------------------------------------------------------

  function Expected(defs: seq<FieldDef>, raws: seq<int>): (t: seq<TelemetryField>)
    requires |raws| == |defs|
    ensures |t| == |defs|
    ensures forall i | 0 <= i < |defs| ::
      t[i] == TelemetryField(defs[i].name, Value(raws[i], defs[i].factor), defs[i].unit)
  {
    seq(|defs|, i requires 0 <= i < |defs| =>
      TelemetryField(defs[i].name, Value(raws[i], defs[i].factor), defs[i].unit))
  }

  lemma {:induction false} AllDecoded(q: seq<byte>, defs: seq<FieldDef>, raws: seq<int>)
    requires Fits(defs, |q|) && |raws| == |defs|
    requires forall i | 0 <= i < |defs| :: ReadRaw(q, defs[i].kind, defs[i].offset) == Some(raws[i])
    ensures DecodeFields(q, defs) == Expected(defs, raws)
  {
    if defs != [] {
      var n := |defs| - 1;
      AllDecoded(q, defs[..n], raws[..n]);
      assert ReadRaw(q, defs[n].kind, defs[n].offset) == Some(raws[n]);
      assert Expected(defs, raws) == Expected(defs[..n], raws[..n]) + DecodeField(q, defs[n]);
    }
  }

  /** Decoding returns every written value, scaled, in definition order; with factors of at least a hundredth the
      raw values themselves can be recovered from the telemetry. */
  lemma LayoutRoundTrip(p: seq<byte>, defs: seq<FieldDef>, raws: seq<int>)
    requires Fits(defs, |p|) && PairwiseApart(defs, |p|) && AllInRange(defs, raws, |p|)
    ensures var t := DecodeFields(WriteAll(p, defs, raws), defs);
      && t == Expected(defs, raws)
      && forall i | 0 <= i < |defs| && defs[i].factor >= 0.01 :: Recover(t[i].value, defs[i].factor) == raws[i]
  {
    var q := WriteAll(p, defs, raws);
    forall i | 0 <= i < |defs|
      ensures ReadRaw(q, defs[i].kind, defs[i].offset) == Some(raws[i])
    {
      ReadBack(p, defs, raws, i);
    }
    AllDecoded(q, defs, raws);
    forall i | 0 <= i < |defs| && defs[i].factor >= 0.01
      ensures Recover(Expected(defs, raws)[i].value, defs[i].factor) == raws[i]
    {
      RecoverExact(raws[i], defs[i].factor);
    }
  }

  // ---- The hand-written definition ---------------------------------------------------------------

  function Temperature(name: string, offset: nat): FieldDef {
    FieldDef(name, offset, Int16, 0.1, "\U{00B0}C", 0)
  }

  const BS2_FIELDS: seq<FieldDef> := [
    Temperature("temp_sensor1", 0),
    Temperature("temp_sensor2", 2),
    Temperature("temp_sensor3", 4),
    Temperature("temp_sensor4", 6),
    FieldDef("pump_speed_1", 8, Uint8, 1.0, "%", 0),
    FieldDef("pump_speed_2", 9, Uint8, 1.0, "%", 0),
    FieldDef("relay_mask", 10, Uint16, 1.0, "", 0),
    FieldDef("error_mask", 12, Uint16, 1.0, "", 0),
    FieldDef("operating_hours_1", 14, Uint32, 1.0, "h", 0),
    FieldDef("operating_hours_2", 18, Uint32, 1.0, "h", 0),
    FieldDef("heat_quantity", 22, Uint32, 1.0, "Wh", 0)]

  const BS2_PAYLOAD: nat := 28

  /** Fields that begin where or after the one before them ends are pairwise apart. */
  predicate Ascending(defs: seq<FieldDef>, size: nat)
    requires Fits(defs, size)
  {
    forall i | 0 <= i < |defs| - 1 :: defs[i].offset + Width(defs[i].kind) <= defs[i + 1].offset
  }

  lemma {:induction false} AscendingOrder(defs: seq<FieldDef>, size: nat, i: nat, j: nat)
    requires Fits(defs, size) && Ascending(defs, size) && i < j < |defs|
    ensures defs[i].offset + Width(defs[i].kind) <= defs[j].offset
    decreases j - i
  {
    assert defs[j - 1].offset + Width(defs[j - 1].kind) <= defs[j - 1 + 1].offset;
    if i < j - 1 {
      AscendingOrder(defs, size, i, j - 1);
    }
  }

  lemma BS2Fits()
    ensures Fits(BS2_FIELDS, BS2_PAYLOAD)
  {
  }

  lemma BS2Ascending()
    ensures Fits(BS2_FIELDS, BS2_PAYLOAD) && Ascending(BS2_FIELDS, BS2_PAYLOAD)
  {
    BS2Fits();
    hide Fits;
  }

  /** The DeltaSol BS2 definition fits its 28-byte payload, and every payload value survives decoding. */
  lemma BS2Sound()
    ensures Fits(BS2_FIELDS, BS2_PAYLOAD) && Faithful(BS2_FIELDS, BS2_PAYLOAD)
  {
    var defs := BS2_FIELDS;
    BS2Ascending();
    hide BS2_FIELDS;
    forall i, j | 0 <= i < j < |defs|
      ensures Apart(defs[i], defs[j])
    {
      AscendingOrder(defs, BS2_PAYLOAD, i, j);
    }
    FaithfulIff(defs, BS2_PAYLOAD);
  }

  /** The numbers in the payload, each from its own bytes. */
  function BS2Raws(p: seq<byte>): (raws: seq<int>)
    requires |p| == BS2_PAYLOAD
    ensures |raws| == 11
  {
    [AsInt16(Le16(p[0], p[1])), AsInt16(Le16(p[2], p[3])), AsInt16(Le16(p[4], p[5])), AsInt16(Le16(p[6], p[7])),
     p[8], p[9], Le16(p[10], p[11]), Le16(p[12], p[13]),
     Le32(p[14], p[15], p[16], p[17]), Le32(p[18], p[19], p[20], p[21]), Le32(p[22], p[23], p[24], p[25])]
  }

  /** Four temperatures in tenths of a degree, two speeds, two masks, two operating times and a heat quantity. */
  function BS2Telemetry(r: seq<int>): seq<TelemetryField>
    requires |r| == 11
  {
    [TelemetryField("temp_sensor1", Value(r[0], 0.1), "\U{00B0}C"),
     TelemetryField("temp_sensor2", Value(r[1], 0.1), "\U{00B0}C"),
     TelemetryField("temp_sensor3", Value(r[2], 0.1), "\U{00B0}C"),
     TelemetryField("temp_sensor4", Value(r[3], 0.1), "\U{00B0}C"),
     TelemetryField("pump_speed_1", Value(r[4], 1.0), "%"),
     TelemetryField("pump_speed_2", Value(r[5], 1.0), "%"),
     TelemetryField("relay_mask", Value(r[6], 1.0), ""),
     TelemetryField("error_mask", Value(r[7], 1.0), ""),
     TelemetryField("operating_hours_1", Value(r[8], 1.0), "h"),
     TelemetryField("operating_hours_2", Value(r[9], 1.0), "h"),
     TelemetryField("heat_quantity", Value(r[10], 1.0), "Wh")]
  }

  lemma BS2RawAt(p: seq<byte>, i: nat)
    requires |p| == BS2_PAYLOAD && i < 11
    ensures ReadRaw(p, BS2_FIELDS[i].kind, BS2_FIELDS[i].offset) == Some(BS2Raws(p)[i])
  {
    hide Le16, Le32, AsInt16;
  }

  /** Every payload of the device is read as these. */
  lemma BS2Reads(p: seq<byte>)
    requires |p| == BS2_PAYLOAD
    ensures DecodeFields(p, BS2_FIELDS) == BS2Telemetry(BS2Raws(p))
  {
    BS2Fits();
    var r := BS2Raws(p);
    BS2Expected(r);
    hide BS2Raws, ReadRaw, DecodeFields, Expected, Fits, Value;
    assert |BS2_FIELDS| == 11;
    forall i | 0 <= i < 11
      ensures ReadRaw(p, BS2_FIELDS[i].kind, BS2_FIELDS[i].offset) == Some(r[i])
    {
      BS2RawAt(p, i);
    }
    AllDecoded(p, BS2_FIELDS, r);
  }

  lemma BS2Expected(r: seq<int>)
    requires |r| == 11
    ensures Expected(BS2_FIELDS, r) == BS2Telemetry(r)
  {
    hide Value;
  }
}
