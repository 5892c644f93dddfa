// The generator: compiles VSF packet descriptions into packet definitions.
module Compiler {
  import opened Bytes
  import opened Wire
  import opened Rounding
  import opened Registries
  import opened Options
  import opened Names

  datatype Part = Part(offset: nat, bitPos: int, mask: byte, isSigned: bool, rawFactor: int)

  datatype Field = Field(name: string, unitText: string, precision: int, parts: seq<Part>)

  datatype Packet =
    Packet(dst: u16, dstMask: u16, src: u16, srcMask: u16, cmd: u16, name: string, fields: seq<Field>)

  // ---- The compiler --------------------------------------------------------------------------------

  const MULTIPLIERS: seq<int> := [1, 256, 65536, 16777216]

  predicate WholeBytes(parts: seq<Part>) {
    forall i | 0 <= i < |parts| :: parts[i].mask == 0xFF
  }

  /** The field type a VSF field compiles to, if it is supported. */
  function Kind(parts: seq<Part>): Option<FieldType> {
    match |parts|
    case 1 =>
      if parts[0].bitPos != 0 || parts[0].mask != 0xFF then None
      else if parts[0].isSigned then Some(Int16)
      else Some(Uint8)
    case 2 =>
      if parts[0].rawFactor != 1 || parts[1].rawFactor != 256 || !WholeBytes(parts) then None
      else if parts[1].isSigned then Some(Int16)
      else Some(Uint16)
    case 4 =>
      if WholeBytes(parts) && forall i | 0 <= i < 4 :: parts[i].rawFactor == MULTIPLIERS[i] then Some(Uint32)
      else None
    case _ => None
  }

  method MapField(f: Field) returns (kind: FieldType, offset: nat, factor: real, ok: bool)
    ensures ok <==> Kind(f.parts).Some?
    ensures ok ==> kind == Kind(f.parts).value && offset == f.parts[0].offset && factor == Pow10(-f.precision)
  {
    kind, offset, factor, ok := Uint8, 0, 0.0, false;
    if |f.parts| == 0 {
      return;
    }
    var scale := Pow10(-f.precision);
    var p0 := f.parts[0];
    if |f.parts| == 1 {
      if p0.bitPos != 0 || p0.mask == 0 {
        return;
      }
      if p0.mask != 0xFF {
        return;
      }
      if p0.isSigned {
        return Int16, p0.offset, scale, true;
      }
      return Uint8, p0.offset, scale, true;
    } else if |f.parts| == 2 {
      if p0.rawFactor != 1 || f.parts[1].rawFactor != 256 {
        return;
      }
      if p0.mask != 0xFF || f.parts[1].mask != 0xFF {
        return;
      }
      if f.parts[1].isSigned {
        return Int16, p0.offset, scale, true;
      }
      return Uint16, p0.offset, scale, true;
    } else if |f.parts| == 4 {
      for i := 0 to 4
        invariant forall k | 0 <= k < i :: f.parts[k].rawFactor == MULTIPLIERS[k] && f.parts[k].mask == 0xFF
        invariant !ok
      {
        if f.parts[i].rawFactor != MULTIPLIERS[i] || f.parts[i].mask != 0xFF {
          return;
        }
      }
      return Uint32, p0.offset, scale, true;
    }
  }

  // ---- What a VSF field means ----------------------------------------------------------------------

  /** An arithmetic shift right; a negative amount shifts left. */
  function Shift(v: int, k: int): int
    decreases if k < 0 then -k else k
  {
    if k == 0 then v else if k > 0 then Shift(v / 2, k - 1) else Shift(2 * v, k + 1)
  }

  function Pow2(k: nat): (r: nat)
    ensures r > 0
  {
    if k == 0 then 1 else 2 * Pow2(k - 1)
  }

  /** Shifting right drops the lowest bits; shifting left multiplies. */
  lemma {:induction false} ShiftIs(v: int, k: int)
    requires k >= 0
    ensures var q := Shift(v, k); q * Pow2(k) <= v < (q + 1) * Pow2(k)
    ensures Shift(v, -k) == v * Pow2(k)
    decreases k
  {
    if k > 0 {
      ShiftIs(v / 2, k - 1);
      ShiftIs(2 * v, k - 1);
      HalvedBounds(v, Shift(v, k), Pow2(k - 1));
    }
  }

  lemma HalvedBounds(v: int, q: int, m: nat)
    requires q * m <= v / 2 < (q + 1) * m
    ensures q * (2 * m) <= v < (q + 1) * (2 * m)
  {
    assert q * (2 * m) == 2 * (q * m) && (q + 1) * (2 * m) == 2 * ((q + 1) * m);
  }

  /** A whole-byte part's contribution: the byte, signed if the part is, shifted, times the byte's multiplier. */
  function PartValue(b: byte, p: Part): int {
    Shift(if p.isSigned && b >= 0x80 then b - 0x100 else b, p.bitPos) * p.rawFactor
  }

  /** The sum of the parts, provided that all of them lie in the payload. */
  function VsfRaw(payload: seq<byte>, parts: seq<Part>): Option<int> {
    if parts == [] then Some(0)
    else if parts[0].offset >= |payload| then None
    else
      match VsfRaw(payload, parts[1..])
      case None => None
      case Some(rest) => Some(PartValue(payload[parts[0].offset], parts[0]) + rest)
  }

  /** The value a VSF field describes, rounded to hundredths. */
  function VsfValue(payload: seq<byte>, f: Field): Option<real> {
    match VsfRaw(payload, f.parts)
    case None => None
    case Some(raw) => Some(Value(raw, Pow10(-f.precision)))
  }

  /** What a caller can check about an accepted field: unshifted parts at consecutive offsets, signed at most in the
      top byte of a pair, and a lone byte unsigned with multiplier one. */
  predicate WellLaidOut(parts: seq<Part>) {
    match |parts|
    case 1 => !parts[0].isSigned && parts[0].rawFactor == 1
    case 2 =>
      && parts[0].bitPos == 0 && parts[1].bitPos == 0
      && !parts[0].isSigned
      && parts[1].offset == parts[0].offset + 1
    case _ =>
      forall i | 0 <= i < |parts| ::
        parts[i].bitPos == 0 && !parts[i].isSigned && parts[i].offset == parts[0].offset + i
  }

  /** The compiled field reads, from this payload, the integer the VSF field describes. */
  ghost predicate SameRaw(payload: seq<byte>, parts: seq<Part>)
    requires Kind(parts).Some?
  {
    ReadRaw(payload, Kind(parts).value, parts[0].offset) == VsfRaw(payload, parts)
  }

  ghost predicate SameRawAlways(parts: seq<Part>)
    requires Kind(parts).Some?
  {
    forall payload: seq<byte> :: SameRaw(payload, parts)
  }

  lemma VsfRaw1(payload: seq<byte>, p: Part)
    ensures VsfRaw(payload, [p]) ==
      if p.offset < |payload| then Some(PartValue(payload[p.offset], p)) else None
  {
    assert VsfRaw(payload, []) == Some(0);
  }

  lemma VsfRaw2(payload: seq<byte>, p: Part, q: Part)
    ensures VsfRaw(payload, [p, q]) ==
      if p.offset < |payload| && q.offset < |payload|
      then Some(PartValue(payload[p.offset], p) + PartValue(payload[q.offset], q)) else None
  {
    VsfRaw1(payload, q);
    assert [p, q][1..] == [q];
  }

  lemma VsfRaw4(payload: seq<byte>, p: Part, q: Part, r: Part, s: Part)
    ensures VsfRaw(payload, [p, q, r, s]) ==
      if p.offset < |payload| && q.offset < |payload| && r.offset < |payload| && s.offset < |payload|
      then Some(PartValue(payload[p.offset], p) + PartValue(payload[q.offset], q)
                + PartValue(payload[r.offset], r) + PartValue(payload[s.offset], s))
      else None
  {
    VsfRaw2(payload, r, s);
    assert [p, q, r, s][1..] == [q, r, s] && [q, r, s][1..] == [r, s];
    assert VsfRaw(payload, [q, r, s]) ==
      if q.offset >= |payload| then None
      else match VsfRaw(payload, [r, s])
           case None => None
           case Some(rest) => Some(PartValue(payload[q.offset], q) + rest);
  }

  lemma WellLaidOutSame(payload: seq<byte>, parts: seq<Part>)
    requires Kind(parts).Some? && WellLaidOut(parts)
    ensures SameRaw(payload, parts)
  {
    if |parts| == 1 {
      assert parts == [parts[0]];
      VsfRaw1(payload, parts[0]);
    } else if |parts| == 2 {
      assert parts == [parts[0], parts[1]];
      VsfRaw2(payload, parts[0], parts[1]);
    } else {
      assert parts == [parts[0], parts[1], parts[2], parts[3]];
      VsfRaw4(payload, parts[0], parts[1], parts[2], parts[3]);
    }
  }

  // ---- Payloads that expose a bad layout -----------------------------------------------------------

  lemma {:induction false} ShiftZero(k: int)
    ensures Shift(0, k) == 0
    decreases if k < 0 then -k else k
  {
    if k > 0 {
      ShiftZero(k - 1);
    } else if k < 0 {
      ShiftZero(k + 1);
    }
  }

  lemma {:induction false} ShiftLeftGrows(v: int, k: int)
    requires v > 0 && k <= 0
    ensures Shift(v, k) >= v
    decreases -k
  {
    if k < 0 {
      ShiftLeftGrows(2 * v, k + 1);
    }
  }

  lemma ShiftOne(k: int)
    ensures k > 0 ==> Shift(1, k) == 0
    ensures k == 0 ==> Shift(1, k) == 1
    ensures k < 0 ==> Shift(1, k) >= 2
  {
    if k > 0 {
      ShiftZero(k - 1);
    } else if k < 0 {
      ShiftLeftGrows(2, k + 1);
    }
  }

  /** A payload of zeros but for one byte. */
  function Single(size: nat, at: nat, v: byte): (p: seq<byte>)
    requires at < size
    ensures |p| == size && forall i | 0 <= i < size :: p[i] == if i == at then v else 0
  {
    seq(size, i => if i == at then v else 0)
  }

  /** What a part contributes when one byte of the payload is set. */
  lemma PartOfSingle(p: Part, size: nat, at: nat, v: byte)
    requires at < size && p.offset < size
    ensures PartValue(Single(size, at, v)[p.offset], p) == if p.offset == at then PartValue(v, p) else 0
  {
    ShiftZero(p.bitPos);
  }

  // The probes below tell a bad layout apart by more than 100, so that they also work through rounded values.

  const TOLERANCE: int := 100

  /** The compiled field and the VSF field agree on this payload, up to the tolerance. */
  ghost predicate Near(payload: seq<byte>, parts: seq<Part>)
    requires Kind(parts).Some?
  {
    var a, b := ReadRaw(payload, Kind(parts).value, parts[0].offset), VsfRaw(payload, parts);
    (a.Some? <==> b.Some?) && (a.Some? ==> -TOLERANCE <= a.value - b.value <= TOLERANCE)
  }

  /** They do on all payloads of a size. */
  ghost predicate NearAt(parts: seq<Part>, size: nat)
    requires Kind(parts).Some?
  {
    forall payload: seq<byte> | |payload| == size :: Near(payload, parts)
  }

  /** A payload of this size has every byte that the field or its compiled form might read. */
  predicate Reaches(parts: seq<Part>, size: nat) {
    forall i | 0 <= i < |parts| :: parts[i].offset + 4 <= size
  }

  function Reach(parts: seq<Part>): (size: nat)
    ensures Reaches(parts, size)
  {
    if parts == [] then 0
    else
      var front, o := Reach(parts[..|parts| - 1]), parts[|parts| - 1].offset + 4;
      if front >= o then front else o
  }

  lemma {:induction false} ShiftMinusOne(k: int)
    ensures Shift(-1, k) < 0
    decreases if k < 0 then -k else k
  {
    if k > 0 {
      ShiftMinusOne(k - 1);
    } else if k < 0 {
      ShiftNegative(-2, k + 1);
    }
  }

  lemma {:induction false} ShiftNegative(v: int, k: int)
    requires v < 0 && k <= 0
    ensures Shift(v, k) < 0
    decreases -k
  {
    if k < 0 {
      ShiftNegative(2 * v, k + 1);
    }
  }

  lemma {:induction false} ShiftRightShrinks(v: int, k: int)
    requires v >= 0 && k >= 0
    ensures 0 <= Shift(v, k) <= v
    decreases k
  {
    if k > 0 {
      ShiftRightShrinks(v / 2, k - 1);
    }
  }

  /** A byte of ones betrays a shift or a sign. */
  lemma OnesBetray(p: Part)
    requires p.rawFactor == 1
    ensures -TOLERANCE <= PartValue(0xFF, p) - 0xFF <= TOLERANCE <==> p.bitPos == 0 && !p.isSigned
  {
    if p.isSigned {
      ShiftMinusOne(p.bitPos);
    } else if p.bitPos > 0 {
      ShiftRightShrinks(127, p.bitPos - 1);
    } else if p.bitPos < 0 {
      ShiftLeftGrows(510, p.bitPos + 1);
    }
  }

  lemma NearMeansWellLaidOut1(parts: seq<Part>, size: nat)
    requires |parts| == 1 && Kind(parts).Some? && Reaches(parts, size) && NearAt(parts, size)
    ensures WellLaidOut(parts)
  {
    var p := parts[0];
    assert parts == [p];
    var ones, next := Single(size, p.offset, 0xFF), Single(size, p.offset + 1, 1);
    VsfRaw1(ones, p);
    VsfRaw1(next, p);
    PartOfSingle(p, size, p.offset + 1, 1);
    assert Near(ones, parts) && Near(next, parts);
  }

  lemma NearMeansWellLaidOut2(parts: seq<Part>, size: nat)
    requires |parts| == 2 && Kind(parts).Some? && Reaches(parts, size) && NearAt(parts, size)
    ensures WellLaidOut(parts)
  {
    var p, q, o := parts[0], parts[1], parts[0].offset;
    assert parts == [p, q];
    var high, low := Single(size, o + 1, 1), Single(size, o, 0xFF);
    VsfRaw2(high, p, q);
    PartOfSingle(p, size, o + 1, 1);
    PartOfSingle(q, size, o + 1, 1);
    assert Near(high, parts);
    ShiftOne(q.bitPos);
    assert q.offset == o + 1 && q.bitPos == 0;
    VsfRaw2(low, p, q);
    PartOfSingle(p, size, o, 0xFF);
    PartOfSingle(q, size, o, 0xFF);
    assert Near(low, parts);
    OnesBetray(p);
  }

  /** What part p makes of a payload that is zero but for value v at one byte. */
  function Share(p: Part, at: nat, v: byte): int {
    if p.offset == at then PartValue(v, p) else 0
  }

  /** What byte i of four is worth. */
  function Weighed(v: byte, i: nat): int
    requires i < 4
  {
    v * MULTIPLIERS[i]
  }

  lemma ReadOfSingle(size: nat, offset: nat, at: nat, v: byte)
    requires offset <= at < offset + 4 <= size
    ensures ReadRaw(Single(size, at, v), Uint32, offset) == Some(Weighed(v, at - offset))
  {
    var t := Single(size, at, v);
    assert t[offset] == (if at == offset then v else 0) && t[offset + 1] == (if at == offset + 1 then v else 0);
    assert t[offset + 2] == (if at == offset + 2 then v else 0) && t[offset + 3] == (if at == offset + 3 then v else 0);
    hide Single, Le32, Weighed;
    Le32OfOne(at - offset, v);
  }

  lemma Le32OfOne(i: nat, v: byte)
    requires i < 4
    ensures Le32(if i == 0 then v else 0, if i == 1 then v else 0, if i == 2 then v else 0, if i == 3 then v else 0)
         == Weighed(v, i)
  {
  }

  function Shares(parts: seq<Part>, at: nat, v: byte): int
    requires |parts| == 4
  {
    Share(parts[0], at, v) + Share(parts[1], at, v) + Share(parts[2], at, v) + Share(parts[3], at, v)
  }

  lemma VsfOfSingle(parts: seq<Part>, size: nat, at: nat, v: byte)
    requires |parts| == 4 && Reaches(parts, size) && at < size
    ensures VsfRaw(Single(size, at, v), parts) == Some(Shares(parts, at, v))
  {
    var t := Single(size, at, v);
    PartOfSingle(parts[0], size, at, v);
    PartOfSingle(parts[1], size, at, v);
    PartOfSingle(parts[2], size, at, v);
    PartOfSingle(parts[3], size, at, v);
    hide PartValue, VsfRaw, Single;
    assert parts == [parts[0], parts[1], parts[2], parts[3]];
    VsfRaw4(t, parts[0], parts[1], parts[2], parts[3]);
  }

  lemma NearMeans(payload: seq<byte>, parts: seq<Part>, a: int, b: int)
    requires Kind(parts) == Some(Uint32) && Near(payload, parts)
    requires ReadRaw(payload, Uint32, parts[0].offset) == Some(a) && VsfRaw(payload, parts) == Some(b)
    ensures -TOLERANCE <= a - b <= TOLERANCE
  {
    hide ReadRaw, VsfRaw;
  }

  /** What a four-part field makes of a payload with a single byte set. */
  lemma FourOfSingle(parts: seq<Part>, size: nat, at: nat, v: byte)
    requires |parts| == 4 && Kind(parts).Some? && Reaches(parts, size) && NearAt(parts, size)
    requires parts[0].offset <= at < parts[0].offset + 4
    ensures -TOLERANCE <= Weighed(v, at - parts[0].offset) - Shares(parts, at, v) <= TOLERANCE
  {
    var t := Single(size, at, v);
    assert Near(t, parts) && Kind(parts) == Some(Uint32) && parts[0].offset + 4 <= size;
    hide *;
    ReadOfSingle(size, parts[0].offset, at, v);
    VsfOfSingle(parts, size, at, v);
    NearMeans(t, parts, Weighed(v, at - parts[0].offset), Shares(parts, at, v));
  }

  lemma NearMeansWellLaidOut4(parts: seq<Part>, size: nat)
    requires |parts| == 4 && Kind(parts).Some? && Reaches(parts, size) && NearAt(parts, size)
    ensures WellLaidOut(parts)
  {
    var o := parts[0].offset;
    ShiftOne(parts[1].bitPos);
    ShiftOne(parts[2].bitPos);
    ShiftOne(parts[3].bitPos);
    FourOfSingle(parts, size, o + 1, 1);
    assert parts[1].offset == o + 1 && parts[1].bitPos == 0;
    FourOfSingle(parts, size, o + 2, 1);
    assert parts[2].offset == o + 2 && parts[2].bitPos == 0;
    FourOfSingle(parts, size, o + 3, 1);
    assert parts[3].offset == o + 3 && parts[3].bitPos == 0;
    FourOfSingle(parts, size, o, 0xFF);
    OnesBetray(parts[0]);
    FourOfSingle(parts, size, o + 1, 0x80);
    FourOfSingle(parts, size, o + 2, 0x80);
    FourOfSingle(parts, size, o + 3, 0x80);
  }

  /** Agreement on the payloads of one size is enough if that reaches the whole field. */
  lemma NearMeansWellLaidOut(parts: seq<Part>, size: nat)
    requires Kind(parts).Some? && Reaches(parts, size) && NearAt(parts, size)
    ensures WellLaidOut(parts)
  {
    if |parts| == 1 {
      NearMeansWellLaidOut1(parts, size);
    } else if |parts| == 2 {
      NearMeansWellLaidOut2(parts, size);
    } else {
      NearMeansWellLaidOut4(parts, size);
    }
  }

  /** An accepted field is compiled faithfully, for every payload, exactly when it is well laid out. */
  lemma CompilationFaithfulIff(parts: seq<Part>)
    requires Kind(parts).Some?
    ensures SameRawAlways(parts) <==> WellLaidOut(parts)
  {
    if WellLaidOut(parts) {
      forall payload: seq<byte>
        ensures SameRaw(payload, parts)
      {
        WellLaidOutSame(payload, parts);
      }
    }
    if SameRawAlways(parts) {
      forall payload: seq<byte>
        ensures Near(payload, parts)
      {
        assert SameRaw(payload, parts);
      }
      NearMeansWellLaidOut(parts, Reach(parts));
    }
  }

  // ---- Which fields must be accepted ---------------------------------------------------------------

  /** Unmasked, unshifted bytes with the multipliers of a little-endian number of one, two or four bytes. */
  predicate Numeral(parts: seq<Part>) {
    && (|parts| == 1 || |parts| == 2 || |parts| == 4)
    && (forall i | 0 <= i < |parts| :: parts[i].mask == 0xFF && parts[i].bitPos == 0)
    && parts[0].rawFactor == 1
    && (|parts| > 1 ==> parts[1].rawFactor == 256)
    && (|parts| > 2 ==> parts[2].rawFactor == 65536 && parts[3].rawFactor == 16777216)
  }

  /** This numeric type, read at the first part, gives what the field describes, for every payload. */
  ghost predicate ReadableAs(parts: seq<Part>, kind: FieldType)
    requires parts != []
  {
    forall payload: seq<byte> :: ReadRaw(payload, kind, parts[0].offset) == VsfRaw(payload, parts)
  }

  lemma ReadableHere(payload: seq<byte>, parts: seq<Part>, kind: FieldType)
    requires parts != [] && ReadableAs(parts, kind)
    ensures ReadRaw(payload, kind, parts[0].offset) == VsfRaw(payload, parts)
  {
  }

  /** What an unsigned or small byte of a numeral contributes. */
  lemma PlainPart(p: Part, v: byte)
    requires p.bitPos == 0
    ensures PartValue(v, p) == (if p.isSigned && v >= 0x80 then v - 0x100 else v) * p.rawFactor
  {
  }

  lemma OneReadable(p: Part, kind: FieldType)
    requires Numeral([p]) && ReadableAs([p], kind)
    ensures Kind([p]) == Some(kind) && WellLaidOut([p])
  {
    var t := Single(p.offset + 1, p.offset, 0xFF);
    ReadableHere(t, [p], kind);
    VsfRaw1(t, p);
    PlainPart(p, 0xFF);
  }

  /** The two bytes of a readable pair are adjacent. */
  lemma PairAdjacent(p: Part, q: Part, kind: FieldType)
    requires Numeral([p, q]) && ReadableAs([p, q], kind)
    ensures q.offset == p.offset + 1 && (kind.Int16? || kind.Uint16?)
  {
    var n := p.offset + q.offset + 4;
    var t := Single(n, q.offset, 1);
    ReadableHere(t, [p, q], kind);
    VsfRaw2(t, p, q);
    PlainPart(p, 1);
    PlainPart(q, 1);
    PartOfSingle(p, n, q.offset, 1);
    PartOfSingle(q, n, q.offset, 1);
    assert q.offset == p.offset + 1;
    var u := Single(p.offset + 2, p.offset, 0);
    ReadableHere(u, [p, q], kind);
    VsfRaw2(u, p, q);
  }

  lemma PairReadable(p: Part, q: Part, kind: FieldType)
    requires Numeral([p, q]) && ReadableAs([p, q], kind)
    ensures Kind([p, q]) == Some(kind) && WellLaidOut([p, q])
  {
    PairAdjacent(p, q, kind);
    var n := p.offset + 2;
    var low, high := Single(n, p.offset, 0xFF), Single(n, p.offset + 1, 0xFF);
    ReadableHere(low, [p, q], kind);
    ReadableHere(high, [p, q], kind);
    VsfRaw2(low, p, q);
    VsfRaw2(high, p, q);
    PartOfSingle(p, n, p.offset, 0xFF);
    PartOfSingle(q, n, p.offset, 0xFF);
    PartOfSingle(p, n, p.offset + 1, 0xFF);
    PartOfSingle(q, n, p.offset + 1, 0xFF);
    PlainPart(p, 0xFF);
    PlainPart(q, 0xFF);
    assert WholeBytes([p, q]);
  }

  lemma QuadReadable(parts: seq<Part>, kind: FieldType)
    requires |parts| == 4 && Numeral(parts) && ReadableAs(parts, kind)
    ensures Kind(parts) == Some(kind) && WellLaidOut(parts)
  {
    QuadIsWide(parts, kind);
    assert Kind(parts) == Some(Uint32);
    forall payload: seq<byte>
      ensures SameRaw(payload, parts)
    {
      ReadableHere(payload, parts, kind);
    }
    CompilationFaithfulIff(parts);
  }

  /** Only four bytes reach as high as the top byte of a quad. */
  lemma QuadIsWide(parts: seq<Part>, kind: FieldType)
    requires |parts| == 4 && Numeral(parts) && ReadableAs(parts, kind)
    ensures kind.Uint32?
  {
    var n, at := Reach(parts), parts[3].offset;
    ReachesTop(parts, n);
    hide *;
    VsfOfSingle(parts, n, at, 1);
    TopShare(parts, at);
    var t := Single(n, at, 1);
    ReadableHere(t, parts, kind);
    NarrowRead(t, kind, parts[0].offset);
  }

  lemma ReachesTop(parts: seq<Part>, size: nat)
    requires |parts| == 4 && Reaches(parts, size)
    ensures parts[3].offset < size
  {
  }

  lemma TopShare(parts: seq<Part>, at: nat)
    requires |parts| == 4 && Numeral(parts) && at == parts[3].offset
    ensures Shares(parts, at, 1) >= 16777216
  {
    PlainPart(parts[0], 1);
    PlainPart(parts[1], 1);
    PlainPart(parts[2], 1);
    PlainPart(parts[3], 1);
    hide PartValue;
  }

  lemma NarrowRead(t: seq<byte>, kind: FieldType, offset: nat)
    ensures ReadRaw(t, kind, offset).Some? && !kind.Uint32? ==> ReadRaw(t, kind, offset).value < 0x1_0000
  {
  }

  /** A little-endian numeral is readable as some numeric type exactly when the generator accepts it with that very type
      and it is well laid out: no field that could be read is refused, and none of them gets another type. */
  lemma ReadableIff(parts: seq<Part>, kind: FieldType)
    requires Numeral(parts)
    ensures ReadableAs(parts, kind) <==> Kind(parts) == Some(kind) && WellLaidOut(parts)
  {
    if ReadableAs(parts, kind) {
      if |parts| == 1 {
        assert parts == [parts[0]];
        OneReadable(parts[0], kind);
      } else if |parts| == 2 {
        assert parts == [parts[0], parts[1]];
        PairReadable(parts[0], parts[1], kind);
      } else {
        QuadReadable(parts, kind);
      }
    } else if Kind(parts) == Some(kind) && WellLaidOut(parts) {
      forall payload: seq<byte>
        ensures ReadRaw(payload, kind, parts[0].offset) == VsfRaw(payload, parts)
      {
        WellLaidOutSame(payload, parts);
      }
    }
  }

  /** Each accepted pattern with its type, spelled out; everything else is refused. */
  lemma AcceptedIff(parts: seq<Part>)
    ensures Kind(parts) == Some(Uint8) <==>
            |parts| == 1 && parts[0].mask == 0xFF && parts[0].bitPos == 0 && !parts[0].isSigned
    ensures Kind(parts) == Some(Int16) <==>
            || (|parts| == 1 && parts[0].mask == 0xFF && parts[0].bitPos == 0 && parts[0].isSigned)
            || (|parts| == 2 && parts[0].mask == parts[1].mask == 0xFF
                && parts[0].rawFactor == 1 && parts[1].rawFactor == 256 && parts[1].isSigned)
    ensures Kind(parts) == Some(Uint16) <==>
            |parts| == 2 && parts[0].mask == parts[1].mask == 0xFF
            && parts[0].rawFactor == 1 && parts[1].rawFactor == 256 && !parts[1].isSigned
    ensures Kind(parts) == Some(Uint32) <==>
            |parts| == 4 && parts[0].mask == parts[1].mask == parts[2].mask == parts[3].mask == 0xFF
            && parts[0].rawFactor == 1 && parts[1].rawFactor == 256
            && parts[2].rawFactor == 65536 && parts[3].rawFactor == 16777216
    ensures Kind(parts).Some? ==> Kind(parts).value in {Uint8, Int16, Uint16, Uint32}
  {
  }

  /** A part of a byte is never taken for the byte. */
  lemma MaskedRefused(parts: seq<Part>, i: nat)
    requires i < |parts| && parts[i].mask != 0xFF
    ensures Kind(parts).None?
  {
    AcceptedIff(parts);
  }

  /** Every numeral is accepted, be its top byte signed or not. */
  lemma NumeralAccepted(parts: seq<Part>)
    requires Numeral(parts)
    ensures Kind(parts) == Some(
      if |parts| == 4 then Uint32
      else if parts[|parts| - 1].isSigned then Int16
      else if |parts| == 2 then Uint16 else Uint8)
  {
    AcceptedIff(parts);
  }

  // ---- Published values ----------------------------------------------------------------------------

  function CompiledField(al: Alphabet, f: Field): FieldDef
    requires Kind(f.parts).Some?
  {
    FieldDef(GoName(al, f.name), f.parts[0].offset, Kind(f.parts).value, Pow10(-f.precision), f.unitText, 0)
  }

  /** The compiled field publishes, for every payload, the value the VSF field describes. */
  ghost predicate SameValueAlways(al: Alphabet, f: Field)
    requires Kind(f.parts).Some?
  {
    forall payload: seq<byte> :: ExtractValue(payload, CompiledField(al, f)) == VsfValue(payload, f)
  }

  lemma ExtractsRaw(al: Alphabet, f: Field, payload: seq<byte>)
    requires Kind(f.parts).Some?
    ensures ExtractValue(payload, CompiledField(al, f)) ==
      match ReadRaw(payload, Kind(f.parts).value, f.parts[0].offset)
      case Some(raw) => Some(Value(raw, Pow10(-f.precision)))
      case None => None
  {
  }

  lemma SameRawSameValue(al: Alphabet, f: Field, payload: seq<byte>)
    requires Kind(f.parts).Some? && SameRaw(payload, f.parts)
    ensures ExtractValue(payload, CompiledField(al, f)) == VsfValue(payload, f)
  {
    ExtractsRaw(al, f, payload);
  }

  /** With at most four decimals equal values come from raw values at most 100 apart. */
  lemma SameValueNear(al: Alphabet, f: Field, payload: seq<byte>)
    requires Kind(f.parts).Some? && f.precision <= 4
    requires ExtractValue(payload, CompiledField(al, f)) == VsfValue(payload, f)
    ensures Near(payload, f.parts)
  {
    ExtractsRaw(al, f, payload);
    var a, b := ReadRaw(payload, Kind(f.parts).value, f.parts[0].offset), VsfRaw(payload, f.parts);
    assert VsfValue(payload, f) == if b.Some? then Some(Value(b.value, Pow10(-f.precision))) else None;
    if a.Some? && b.Some? {
      SameValueClose(a.value, b.value, f.precision);
    }
  }

  /** Published values are right for every payload if the field is well laid out, and up to four decimals only then. */
  lemma ValuesPreservedIff(al: Alphabet, f: Field)
    requires Kind(f.parts).Some?
    ensures WellLaidOut(f.parts) ==> SameValueAlways(al, f)
    ensures f.precision <= 4 ==> (SameValueAlways(al, f) <==> WellLaidOut(f.parts))
  {
    if WellLaidOut(f.parts) {
      forall payload: seq<byte>
        ensures ExtractValue(payload, CompiledField(al, f)) == VsfValue(payload, f)
      {
        WellLaidOutSame(payload, f.parts);
        SameRawSameValue(al, f, payload);
      }
    }
    if f.precision <= 4 && SameValueAlways(al, f) {
      forall payload: seq<byte>
        ensures Near(payload, f.parts)
      {
        SameValueNear(al, f, payload);
      }
      NearMeansWellLaidOut(f.parts, Reach(f.parts));
    }
  }

  /** With five decimals a byte is worth less than half a hundredth, and even a lone byte with multiplier 0, which is
      not well laid out, publishes the right value. */
  lemma FiveDecimalsHideLayout(al: Alphabet)
    ensures var f := Field("", "", 5, [Part(0, 0, 0xFF, false, 0)]);
      Kind(f.parts).Some? && !WellLaidOut(f.parts) && SameValueAlways(al, f)
  {
    var f := Field("", "", 5, [Part(0, 0, 0xFF, false, 0)]);
    forall payload: seq<byte>
      ensures ExtractValue(payload, CompiledField(al, f)) == VsfValue(payload, f)
    {
      ExtractsRaw(al, f, payload);
      VsfRaw1(payload, f.parts[0]);
      if payload != [] {
        assert PartValue(payload[0], f.parts[0]) == 0;
        SmallByteVanishes(payload[0]);
        SmallByteVanishes(0);
      }
    }
  }

  // ---- Fields the generator accepts and misreads ---------------------------------------------------

  /** A signed lone byte is read as two bytes: 0x01 0x01 gives 257, not 1. */
  lemma SignedByteMisread()
    ensures var parts := [Part(0, 0, 0xFF, true, 1)];
      Kind(parts) == Some(Int16) && VsfRaw([1, 1], parts) == Some(1) && ReadRaw([1, 1], Int16, 0) == Some(257)
  {
    VsfRaw1([1, 1], Part(0, 0, 0xFF, true, 1));
  }

  /** Four bytes whose top byte is signed are read as unsigned: 0xFF 0xFF 0xFF 0xFF gives 4294967295, not -1. */
  lemma SignedQuadMisread()
    ensures var parts := [Part(0, 0, 0xFF, false, 1), Part(1, 0, 0xFF, false, 256), Part(2, 0, 0xFF, false, 65536),
                          Part(3, 0, 0xFF, true, 16777216)];
      && Kind(parts) == Some(Uint32) && VsfRaw([0xFF, 0xFF, 0xFF, 0xFF], parts) == Some(-1)
      && ReadRaw([0xFF, 0xFF, 0xFF, 0xFF], Uint32, 0) == Some(4294967295)
  {
    VsfRaw4([0xFF, 0xFF, 0xFF, 0xFF], Part(0, 0, 0xFF, false, 1), Part(1, 0, 0xFF, false, 256),
            Part(2, 0, 0xFF, false, 65536), Part(3, 0, 0xFF, true, 16777216));
  }

  /** A pair with a gap is read without it: 0x00 0x01 0x02 gives 256, not 512. */
  lemma GappedPairMisread()
    ensures var parts := [Part(0, 0, 0xFF, false, 1), Part(2, 0, 0xFF, false, 256)];
      Kind(parts) == Some(Uint16) && VsfRaw([0, 1, 2], parts) == Some(512) && ReadRaw([0, 1, 2], Uint16, 0) == Some(256)
  {
    var p, q := Part(0, 0, 0xFF, false, 1), Part(2, 0, 0xFF, false, 256);
    VsfRaw2([0, 1, 2], p, q);
    assert PartValue(0, p) == 0 && PartValue(2, q) == 512;
    assert WholeBytes([p, q]);
  }

  // ---- Packets -------------------------------------------------------------------------------------

  datatype Entry = Entry(key: Key, def: PacketDef)

  function CompiledFields(al: Alphabet, fields: seq<Field>): seq<FieldDef> {
    if fields == [] then []
    else
      var f := fields[|fields| - 1];
      CompiledFields(al, fields[..|fields| - 1]) + if Kind(f.parts).Some? then [CompiledField(al, f)] else []
  }

  /** Exactly addressed broadcast packets with at least one supported field. */
  predicate Selected(al: Alphabet, pk: Packet) {
    && pk.dst == 0x0010 && pk.cmd == 0x0100
    && pk.srcMask == 0xFFFF && pk.dstMask == 0xFFFF
    && CompiledFields(al, pk.fields) != []
  }

  function CompiledPacket(al: Alphabet, pk: Packet): Entry {
    Entry(Key(pk.src, pk.dst, pk.cmd), PacketDef(pk.name, CompiledFields(al, pk.fields)))
  }

  function CompiledPackets(al: Alphabet, packets: seq<Packet>): seq<Entry> {
    if packets == [] then []
    else
      var pk := packets[|packets| - 1];
      CompiledPackets(al, packets[..|packets| - 1]) + if Selected(al, pk) then [CompiledPacket(al, pk)] else []
  }

  // ---- Which packets are exactly addressed ---------------------------------------------------------

  /** x agrees with the address in all of the lowest bits that the mask has. */
  predicate Agrees(x: nat, address: nat, mask: nat, bits: nat) {
    bits == 0
    || ((mask % 2 == 1 ==> x % 2 == address % 2) && Agrees(x / 2, address / 2, mask / 2, bits - 1))
  }

  lemma {:induction false} AgreesItself(address: nat, mask: nat, bits: nat)
    ensures Agrees(address, address, mask, bits)
  {
    if bits > 0 {
      AgreesItself(address / 2, mask / 2, bits - 1);
    }
  }

  lemma {:induction false} FullMaskMatchesOne(x: nat, address: nat, mask: nat, bits: nat)
    requires x < Pow2(bits) && address < Pow2(bits) && mask == Pow2(bits) - 1 && Agrees(x, address, mask, bits)
    ensures x == address
  {
    if bits > 0 {
      FullMaskMatchesOne(x / 2, address / 2, mask / 2, bits - 1);
    }
  }

  /** A mask that is not full lets another address through. */
  lemma {:induction false} OtherMatch(address: nat, mask: nat, bits: nat) returns (x: nat)
    requires address < Pow2(bits) && mask < Pow2(bits) - 1
    ensures x < Pow2(bits) && x != address && Agrees(x, address, mask, bits)
  {
    if mask % 2 == 0 {
      x := if address % 2 == 0 then address + 1 else address - 1;
      assert x / 2 == address / 2;
      AgreesItself(address / 2, mask / 2, bits - 1);
    } else {
      var y := OtherMatch(address / 2, mask / 2, bits - 1);
      x := 2 * y + address % 2;
    }
  }

  /** A packet's description matches frames of this source and destination. */
  predicate MatchesPair(pk: Packet, src: u16, dst: u16) {
    Agrees(src, pk.src, pk.srcMask, 16) && Agrees(dst, pk.dst, pk.dstMask, 16)
  }

  /** It matches a single pair of addresses. */
  ghost predicate MatchesOnePair(pk: Packet) {
    forall s: u16, d: u16 | MatchesPair(pk, s, d) :: s == pk.src && d == pk.dst
  }

  lemma SixteenBits()
    ensures Pow2(16) == 0x1_0000
  {
    assert Pow2(8) == 0x100;
  }

  /** That is so exactly when both masks are full. */
  lemma MatchesOnePairIff(pk: Packet)
    ensures MatchesOnePair(pk) <==> pk.srcMask == 0xFFFF && pk.dstMask == 0xFFFF
  {
    SixteenBits();
    AgreesItself(pk.src, pk.srcMask, 16);
    AgreesItself(pk.dst, pk.dstMask, 16);
    hide Agrees, Pow2;
    if pk.srcMask != 0xFFFF {
      var s := OtherMatch(pk.src, pk.srcMask, 16);
      assert MatchesPair(pk, s, pk.dst);
    } else if pk.dstMask != 0xFFFF {
      var d := OtherMatch(pk.dst, pk.dstMask, 16);
      assert MatchesPair(pk, pk.src, d);
    } else {
      forall s: u16, d: u16 | MatchesPair(pk, s, d)
        ensures s == pk.src && d == pk.dst
      {
        FullMaskMatchesOne(s, pk.src, pk.srcMask, 16);
        FullMaskMatchesOne(d, pk.dst, pk.dstMask, 16);
      }
    }
  }

  /** Some field of the packet is accepted. */
  predicate HasSupported(pk: Packet) { exists f | f in pk.fields :: Kind(f.parts).Some? }

  lemma {:induction false} CompiledNonEmptyIff(al: Alphabet, fields: seq<Field>)
    ensures CompiledFields(al, fields) != [] <==> exists f | f in fields :: Kind(f.parts).Some?
  {
    if fields != [] {
      var n := |fields| - 1;
      hide Kind, CompiledField;
      CompiledNonEmptyIff(al, fields[..n]);
      assert fields == fields[..n] + [fields[n]];
    }
  }

  /** Selected are exactly the broadcast packets that match a single pair of addresses and have a supported field. */
  lemma SelectedIff(al: Alphabet, pk: Packet)
    ensures Selected(al, pk) <==>
            pk.dst == 0x0010 && pk.cmd == 0x0100 && MatchesOnePair(pk) && HasSupported(pk)
  {
    MatchesOnePairIff(pk);
    CompiledNonEmptyIff(al, pk.fields);
    hide MatchesOnePair, CompiledFields, Kind;
  }

  /** The entry describes the packet: its key, its name and its compiled fields. */
  predicate DescribesPacket(al: Alphabet, e: Entry, pk: Packet) {
    && e.key == Key(pk.src, pk.dst, pk.cmd) && e.def.deviceName == pk.name
    && e.def.fields == CompiledFields(al, pk.fields)
  }

  lemma GeneratedIff(al: Alphabet, packets: seq<Packet>, e: Entry)
    ensures e in CompiledPackets(al, packets) <==>
            exists pk | pk in packets ::
              pk.dst == 0x0010 && pk.cmd == 0x0100 && MatchesOnePair(pk) && HasSupported(pk)
              && DescribesPacket(al, e, pk)
  {
    EntriesIff(al, packets, e);
    hide CompiledPackets, CompiledFields, MatchesOnePair, HasSupported, Selected;
    forall pk | pk in packets
      ensures Selected(al, pk) <==>
              pk.dst == 0x0010 && pk.cmd == 0x0100 && MatchesOnePair(pk) && HasSupported(pk)
    {
      SelectedIff(al, pk);
    }
  }

  /** A packet for a whole range of sources yields no entry. */
  lemma WildcardSkipped(al: Alphabet, fields: seq<Field>)
    ensures var pk := Packet(0x0010, 0xFFFF, 0x7100, 0xFFF0, 0x0100, "wild", fields);
      MatchesPair(pk, 0x7105, 0x0010) && CompiledPackets(al, [pk]) == []
  {
    var pk := Packet(0x0010, 0xFFFF, 0x7100, 0xFFF0, 0x0100, "wild", fields);
    AgreesItself(0x0010, 0xFFFF, 16);
    AgreesItself(0x710, 0xFFF, 12);
    assert Agrees(0x7105 / 0x10, 0x7100 / 0x10, 0xFFF0 / 0x10, 12);
    assert Agrees(0x7105 / 8, 0x7100 / 8, 0xFFF0 / 8, 13);
    assert Agrees(0x7105 / 4, 0x7100 / 4, 0xFFF0 / 4, 14);
    assert Agrees(0x7105 / 2, 0x7100 / 2, 0xFFF0 / 2, 15);
    MatchesOnePairIff(pk);
    SelectedIff(al, pk);
    assert [pk][..0] == [];
    assert CompiledPackets(al, [pk]) == CompiledPackets(al, []) + [];
  }

  method CompileFields(al: Alphabet, fields: seq<Field>) returns (defs: seq<FieldDef>)
    requires al.Lawful()
    ensures defs == CompiledFields(al, fields)
  {
    defs := [];
    for j := 0 to |fields|
      invariant defs == CompiledFields(al, fields[..j])
    {
      assert fields[..j + 1][..j] == fields[..j];
      var f := fields[j];
      var ft, offset, factor, ok := MapField(f);
      if ok {
        var goName := ToGoFieldName(al, f.name);
        defs := defs + [FieldDef(goName, offset, ft, factor, f.unitText, 0)];
      }
    }
    assert fields[..|fields|] == fields;
  }

  method Generate(al: Alphabet, packets: seq<Packet>) returns (entries: seq<Entry>)
    requires al.Lawful()
    ensures entries == CompiledPackets(al, packets)
    ensures forall e :: e in entries <==>
      exists pk | pk in packets ::
        pk.dst == 0x0010 && pk.cmd == 0x0100 && MatchesOnePair(pk) && HasSupported(pk) && DescribesPacket(al, e, pk)
  {
    entries := [];
    for i := 0 to |packets|
      invariant entries == CompiledPackets(al, packets[..i])
    {
      assert packets[..i + 1][..i] == packets[..i];
      var pk := packets[i];
      if |pk.fields| == 0 {
        continue;
      }
      if pk.dst != 0x0010 || pk.cmd != 0x0100 {
        continue;
      }
      if pk.srcMask != 0xFFFF || pk.dstMask != 0xFFFF {
        continue;
      }
      var fieldDefs := CompileFields(al, pk.fields);
      if |fieldDefs| == 0 {
        continue;
      }
      entries := entries + [Entry(Key(pk.src, pk.dst, pk.cmd), PacketDef(pk.name, fieldDefs))];
    }
    assert packets[..|packets|] == packets;
    forall e
      ensures e in entries <==>
        exists pk | pk in packets ::
          pk.dst == 0x0010 && pk.cmd == 0x0100 && MatchesOnePair(pk) && HasSupported(pk) && DescribesPacket(al, e, pk)
    {
      GeneratedIff(al, packets, e);
    }
  }

  /** What a VSF field contributes to the telemetry: its value, if it is supported and the payload reaches it. */
  function Described(al: Alphabet, payload: seq<byte>, f: Field): seq<TelemetryField> {
    if Kind(f.parts).None? then []
    else
      match VsfValue(payload, f)
      case Some(v) => [TelemetryField(GoName(al, f.name), v, f.unitText)]
      case None => []
  }

  /** The telemetry that a VSF packet describes, field by field. */
  function VsfTelemetry(al: Alphabet, payload: seq<byte>, fields: seq<Field>): seq<TelemetryField> {
    if fields == [] then []
    else VsfTelemetry(al, payload, fields[..|fields| - 1]) + Described(al, payload, fields[|fields| - 1])
  }

  predicate Misread(f: Field) { Kind(f.parts).Some? && !WellLaidOut(f.parts) }

  /** The same with the badly laid out fields read as they are compiled. */
  function ActualTelemetry(al: Alphabet, payload: seq<byte>, fields: seq<Field>): seq<TelemetryField> {
    if fields == [] then []
    else
      var f := fields[|fields| - 1];
      ActualTelemetry(al, payload, fields[..|fields| - 1]) +
      if Misread(f) then DecodeField(payload, CompiledField(al, f)) else Described(al, payload, f)
  }

  predicate AllWellLaidOut(fields: seq<Field>) {
    forall i | 0 <= i < |fields| :: !Misread(fields[i])
  }

  lemma GoodField(al: Alphabet, payload: seq<byte>, f: Field)
    requires Kind(f.parts).Some? && WellLaidOut(f.parts)
    ensures DecodeField(payload, CompiledField(al, f)) == Described(al, payload, f)
  {
    WellLaidOutSame(payload, f.parts);
    SameRawSameValue(al, f, payload);
  }

  lemma CompiledSnoc(al: Alphabet, payload: seq<byte>, fields: seq<Field>)
    requires fields != []
    ensures var n := |fields| - 1;
      DecodeFields(payload, CompiledFields(al, fields)) == DecodeFields(payload, CompiledFields(al, fields[..n])) +
        if Kind(fields[n].parts).Some? then DecodeField(payload, CompiledField(al, fields[n])) else []
  {
    var n := |fields| - 1;
    var front := CompiledFields(al, fields[..n]);
    hide Kind, DecodeField, CompiledField;
    if Kind(fields[n].parts).Some? {
      var fd := CompiledField(al, fields[n]);
      assert (front + [fd])[..|front|] == front;
    } else {
      assert front + [] == front;
    }
  }

  /** Field by field: every supported field is read as described, except those badly laid out. */
  lemma {:induction false} FieldsPreserved(al: Alphabet, payload: seq<byte>, fields: seq<Field>)
    ensures DecodeFields(payload, CompiledFields(al, fields)) == ActualTelemetry(al, payload, fields)
  {
    if fields != [] {
      var f := fields[|fields| - 1];
      CompiledSnoc(al, payload, fields);
      hide CompiledFields, DecodeFields, CompiledField, DecodeField;
      FieldsPreserved(al, payload, fields[..|fields| - 1]);
      if Kind(f.parts).Some? && WellLaidOut(f.parts) {
        GoodField(al, payload, f);
      }
    }
  }

  lemma {:induction false} NothingMisread(al: Alphabet, payload: seq<byte>, fields: seq<Field>)
    requires AllWellLaidOut(fields)
    ensures ActualTelemetry(al, payload, fields) == VsfTelemetry(al, payload, fields)
  {
    if fields != [] {
      hide Misread, Described, CompiledField;
      NothingMisread(al, payload, fields[..|fields| - 1]);
    }
  }

  lemma ActualSnoc(al: Alphabet, payload: seq<byte>, fields: seq<Field>)
    requires fields != []
    ensures var n := |fields| - 1;
      ActualTelemetry(al, payload, fields) == ActualTelemetry(al, payload, fields[..n]) +
        if Misread(fields[n]) then DecodeField(payload, CompiledField(al, fields[n]))
        else Described(al, payload, fields[n])
  {
    hide Misread, DecodeField, CompiledField, Described;
  }

  lemma GoodIsDescribed(al: Alphabet, payload: seq<byte>, f: Field)
    requires Kind(f.parts).Some? && WellLaidOut(f.parts) && VsfValue(payload, f).Some?
    ensures !Misread(f)
    ensures Described(al, payload, f) == [TelemetryField(GoName(al, f.name), VsfValue(payload, f).value, f.unitText)]
  {
    hide Kind, WellLaidOut, VsfValue, GoName;
  }

  /** Whatever the other fields are, a well-laid-out field that the payload reaches is there with its meaning. */
  lemma {:induction false} FieldArrives(al: Alphabet, payload: seq<byte>, fields: seq<Field>, i: nat)
    requires i < |fields| && Kind(fields[i].parts).Some? && WellLaidOut(fields[i].parts)
    requires VsfValue(payload, fields[i]).Some?
    ensures TelemetryField(GoName(al, fields[i].name), VsfValue(payload, fields[i]).value, fields[i].unitText)
         in ActualTelemetry(al, payload, fields)
  {
    var n := |fields| - 1;
    ActualSnoc(al, payload, fields);
    hide *;
    if i < n {
      FieldArrives(al, payload, fields[..n], i);
    } else {
      GoodIsDescribed(al, payload, fields[i]);
    }
  }

  // ---- Exactly when a whole packet keeps its meaning -----------------------------------------------

  /** A payload of this size reaches every supported field. */
  predicate ReachesAll(fields: seq<Field>, size: nat) {
    forall i | 0 <= i < |fields| && Kind(fields[i].parts).Some? :: Reaches(fields[i].parts, size)
  }

  function ReachOfAll(fields: seq<Field>): (size: nat)
    ensures forall i | 0 <= i < |fields| :: Reaches(fields[i].parts, size)
  {
    if fields == [] then 0
    else
      var front, last := ReachOfAll(fields[..|fields| - 1]), Reach(fields[|fields| - 1].parts);
      assert forall i | 0 <= i < |fields| - 1 :: fields[i] == fields[..|fields| - 1][i];
      if front >= last then front else last
  }

  /** Where the payload reaches a field, both readings give exactly one value. */
  lemma ReachedOnce(al: Alphabet, payload: seq<byte>, f: Field)
    requires Kind(f.parts).Some? && Reaches(f.parts, |payload|)
    ensures |Described(al, payload, f)| == 1 && |DecodeField(payload, CompiledField(al, f))| == 1
    ensures VsfValue(payload, f) == Some(Described(al, payload, f)[0].value)
    ensures ExtractValue(payload, CompiledField(al, f)) ==
            Some(DecodeField(payload, CompiledField(al, f))[0].value)
  {
    hide PartValue, Value, Pow10, GoName;
    ExtractsRaw(al, f, payload);
    if |f.parts| == 1 {
      assert f.parts == [f.parts[0]];
      VsfRaw1(payload, f.parts[0]);
    } else if |f.parts| == 2 {
      assert f.parts == [f.parts[0], f.parts[1]];
      VsfRaw2(payload, f.parts[0], f.parts[1]);
    } else {
      assert f.parts == [f.parts[0], f.parts[1], f.parts[2], f.parts[3]];
      VsfRaw4(payload, f.parts[0], f.parts[1], f.parts[2], f.parts[3]);
    }
  }

  lemma VsfSnoc(al: Alphabet, payload: seq<byte>, fields: seq<Field>)
    requires fields != []
    ensures var n := |fields| - 1;
      VsfTelemetry(al, payload, fields) ==
      VsfTelemetry(al, payload, fields[..n]) + Described(al, payload, fields[n])
  {
    hide Described;
  }

  lemma NotDescribed(al: Alphabet, payload: seq<byte>, f: Field)
    requires Kind(f.parts).None?
    ensures Described(al, payload, f) == []
  {
  }

  /** Equal telemetry is equal without the last field, and in the last field. */
  lemma SameStep(al: Alphabet, payload: seq<byte>, fields: seq<Field>, n: nat)
    requires n == |fields| - 1 && (Kind(fields[n].parts).Some? ==> Reaches(fields[n].parts, |payload|))
    requires DecodeFields(payload, CompiledFields(al, fields)) == VsfTelemetry(al, payload, fields)
    ensures DecodeFields(payload, CompiledFields(al, fields[..n])) == VsfTelemetry(al, payload, fields[..n])
    ensures Kind(fields[n].parts).Some? ==>
      ExtractValue(payload, CompiledField(al, fields[n])) == VsfValue(payload, fields[n])
  {
    hide *;
    var f := fields[n];
    var a, b := DecodeFields(payload, CompiledFields(al, fields[..n])), VsfTelemetry(al, payload, fields[..n]);
    CompiledSnoc(al, payload, fields);
    VsfSnoc(al, payload, fields);
    if Kind(f.parts).Some? {
      ReachedOnce(al, payload, f);
      SameEnds(a, DecodeField(payload, CompiledField(al, f)), b, Described(al, payload, f));
    } else {
      NotDescribed(al, payload, f);
      assert a + [] == a && b + [] == b;
    }
  }

  lemma {:induction false} SameTelemetrySameFields(al: Alphabet, payload: seq<byte>, fields: seq<Field>, i: nat)
    requires ReachesAll(fields, |payload|) && i < |fields| && Kind(fields[i].parts).Some?
    requires DecodeFields(payload, CompiledFields(al, fields)) == VsfTelemetry(al, payload, fields)
    ensures ExtractValue(payload, CompiledField(al, fields[i])) == VsfValue(payload, fields[i])
  {
    hide *;
    var n := |fields| - 1;
    ReachesFront(fields, |payload|, n);
    SameStep(al, payload, fields, n);
    if i < n {
      SameTelemetrySameFields(al, payload, fields[..n], i);
    }
  }

  lemma ReachesFront(fields: seq<Field>, size: nat, n: nat)
    requires ReachesAll(fields, size) && n < |fields|
    ensures ReachesAll(fields[..n], size)
    ensures Kind(fields[n].parts).Some? ==> Reaches(fields[n].parts, size)
  {
    hide Kind, Reaches;
  }

  lemma SameEnds<T>(a: seq<T>, x: seq<T>, b: seq<T>, y: seq<T>)
    requires a + x == b + y && |x| == |y|
    ensures a == b && x == y
  {
    assert a == (a + x)[..|a|] && b == (b + y)[..|b|];
    assert x == (a + x)[|a|..] && y == (b + y)[|b|..];
  }

  /** The compiled packet reads every payload as described. */
  ghost predicate PacketPreserved(al: Alphabet, fields: seq<Field>) {
    forall payload: seq<byte> ::
      DecodeFields(payload, CompiledFields(al, fields)) == VsfTelemetry(al, payload, fields)
  }

  /** A packet with at most four decimals keeps its meaning exactly when all its supported fields are well laid out. */
  lemma PacketPreservedIff(al: Alphabet, fields: seq<Field>)
    requires forall i | 0 <= i < |fields| && Kind(fields[i].parts).Some? :: fields[i].precision <= 4
    ensures PacketPreserved(al, fields) <==> AllWellLaidOut(fields)
  {
    if AllWellLaidOut(fields) {
      forall payload: seq<byte>
        ensures DecodeFields(payload, CompiledFields(al, fields)) == VsfTelemetry(al, payload, fields)
      {
        FieldsPreserved(al, payload, fields);
        NothingMisread(al, payload, fields);
      }
    }
    if PacketPreserved(al, fields) {
      forall i | 0 <= i < |fields|
        ensures !Misread(fields[i])
      {
        if Kind(fields[i].parts).Some? {
          PreservedField(al, fields, i);
        }
      }
    }
  }

  lemma PreservedField(al: Alphabet, fields: seq<Field>, i: nat)
    requires PacketPreserved(al, fields)
    requires i < |fields| && Kind(fields[i].parts).Some? && fields[i].precision <= 4
    ensures WellLaidOut(fields[i].parts)
  {
    var size := ReachOfAll(fields);
    forall payload: seq<byte> | |payload| == size
      ensures Near(payload, fields[i].parts)
    {
      SameTelemetrySameFields(al, payload, fields, i);
      SameValueNear(al, fields[i], payload);
    }
    NearMeansWellLaidOut(fields[i].parts, size);
  }

  /** The generated entries are those of the selected packets. */
  lemma {:induction false} EntriesIff(al: Alphabet, packets: seq<Packet>, e: Entry)
    ensures e in CompiledPackets(al, packets) <==>
            exists pk | pk in packets :: Selected(al, pk) && e == CompiledPacket(al, pk)
  {
    if packets != [] {
      var n := |packets| - 1;
      EntriesIff(al, packets[..n], e);
      assert packets == packets[..n] + [packets[n]];
    }
  }

  // ---- From packets to decoded frames --------------------------------------------------------------

  /** The map after the elements of a literal have been evaluated in the given order. The generated keys are calls and
      not constants, so a repeated one compiles; the element evaluated last wins. */
  function LiteralMap(order: seq<Entry>): map<Key, PacketDef> {
    if order == [] then map[]
    else
      var e := order[|order| - 1];
      LiteralMap(order[..|order| - 1])[e.key := e.def]
  }

  /** The language leaves the order open in which the elements of the literal are evaluated. */
  ghost predicate OrderOf(order: seq<Entry>, entries: seq<Entry>) { multiset(order) == multiset(entries) }

  /** No entry with the same key says anything else. */
  predicate Unrivalled(entries: seq<Entry>, e: Entry) {
    forall x | x in entries && x.key == e.key :: x == e
  }

  /** The map has each key of the entries, with a definition that some entry gives it. */
  lemma {:induction false} LiteralMapFrom(order: seq<Entry>, k: Key)
    ensures k in LiteralMap(order) <==> exists x | x in order :: x.key == k
    ensures k in LiteralMap(order) ==> Entry(k, LiteralMap(order)[k]) in order
  {
    if order != [] {
      var n := |order| - 1;
      LiteralMapFrom(order[..n], k);
      assert order == order[..n] + [order[n]];
    }
  }

  lemma LiteralMapHas(order: seq<Entry>, e: Entry)
    requires e in order && Unrivalled(order, e)
    ensures e.key in LiteralMap(order) && LiteralMap(order)[e.key] == e.def
  {
    LiteralMapFrom(order, e.key);
    assert Entry(e.key, LiteralMap(order)[e.key]) == e;
  }

  lemma SameElements(order: seq<Entry>, entries: seq<Entry>, e: Entry)
    requires OrderOf(order, entries)
    ensures e in order <==> e in entries
  {
    assert e in multiset(order) <==> e in multiset(entries);
  }

  /** The order that evaluates element i last. */
  lemma LastOrder(entries: seq<Entry>, i: nat) returns (order: seq<Entry>)
    requires i < |entries|
    ensures OrderOf(order, entries)
    ensures var e := entries[i]; e.key in LiteralMap(order) && LiteralMap(order)[e.key] == e.def
  {
    order := entries[..i] + entries[i + 1..] + [entries[i]];
    assert entries == entries[..i] + [entries[i]] + entries[i + 1..];
  }

  ghost predicate AlwaysRegistered(entries: seq<Entry>, e: Entry) {
    forall order | OrderOf(order, entries) :: e.key in LiteralMap(order) && LiteralMap(order)[e.key] == e.def
  }

  /** A definition is registered under its key in whatever order the literal is evaluated exactly when it is among the
      entries and no other entry with that key says anything else. */
  lemma AlwaysRegisteredIff(entries: seq<Entry>, e: Entry)
    ensures AlwaysRegistered(entries, e) <==> e in entries && Unrivalled(entries, e)
  {
    if e in entries && Unrivalled(entries, e) {
      forall order | OrderOf(order, entries)
        ensures e.key in LiteralMap(order) && LiteralMap(order)[e.key] == e.def
      {
        ReorderedHas(entries, order, e);
      }
    }
    if AlwaysRegistered(entries, e) {
      assert OrderOf(entries, entries);
      LiteralMapFrom(entries, e.key);
      assert Entry(e.key, LiteralMap(entries)[e.key]) == e;
      forall x | x in entries && x.key == e.key
        ensures x == e
      {
        var i :| 0 <= i < |entries| && entries[i] == x;
        var order := LastOrder(entries, i);
      }
    }
  }

  lemma ReorderedHas(entries: seq<Entry>, order: seq<Entry>, e: Entry)
    requires OrderOf(order, entries) && e in entries && Unrivalled(entries, e)
    ensures e.key in LiteralMap(order) && LiteralMap(order)[e.key] == e.def
  {
    forall x
      ensures x in order <==> x in entries
    {
      SameElements(order, entries, x);
    }
    LiteralMapHas(order, e);
  }

  /** The definition of a packet is sure to be the one registered exactly when every selected packet with the same
      source compiles to the same entry. */
  lemma PacketRegisteredIff(al: Alphabet, packets: seq<Packet>, pk: Packet)
    requires pk in packets && Selected(al, pk)
    ensures AlwaysRegistered(CompiledPackets(al, packets), CompiledPacket(al, pk)) <==>
            forall other | other in packets && Selected(al, other) && other.src == pk.src ::
              CompiledPacket(al, other) == CompiledPacket(al, pk)
  {
    var entries, e := CompiledPackets(al, packets), CompiledPacket(al, pk);
    AlwaysRegisteredIff(entries, e);
    EntriesIff(al, packets, e);
    forall x
      ensures x in entries <==> exists q | q in packets :: Selected(al, q) && x == CompiledPacket(al, q)
    {
      EntriesIff(al, packets, x);
    }
    if Unrivalled(entries, e) {
      forall other | other in packets && Selected(al, other) && other.src == pk.src
        ensures CompiledPacket(al, other) == e
      {
        assert CompiledPacket(al, other) in entries;
      }
    }
  }

  function ExamplePacket(name: string, f: Field): Packet {
    Packet(0x0010, 0xFFFF, 0x0001, 0xFFFF, 0x0100, name, [f])
  }

  /** Two packets of one device compile, and one of them loses its meaning: whichever is evaluated last hides the
      other. */
  lemma SharedSourceHidesPacket(al: Alphabet)
    ensures var f := Field("x", "", 0, [Part(0, 0, 0xFF, false, 1)]);
      var p, q := ExamplePacket("p", f), ExamplePacket("q", f);
      var d, e := CompiledPacket(al, p), CompiledPacket(al, q);
      && CompiledPackets(al, [p, q]) == [d, e] && LiteralMap([d, e]) == map[e.key := e.def]
      && LiteralMap([e, d]) == map[e.key := d.def] && d.def != e.def
  {
    var f := Field("x", "", 0, [Part(0, 0, 0xFF, false, 1)]);
    var p, q := ExamplePacket("p", f), ExamplePacket("q", f);
    var d, e := CompiledPacket(al, p), CompiledPacket(al, q);
    assert CompiledFields(al, [f]) != [] by {
      assert [f][..0] == [];
      assert Kind(f.parts).Some?;
    }
    assert [p, q][..1] == [p] && [p][..0] == [] && [d] + [e] == [d, e];
    assert CompiledPackets(al, [p]) == [] + [d];
    LiteralOfTwo(d, e);
    LiteralOfTwo(e, d);
  }

  lemma LiteralOfTwo(d: Entry, e: Entry)
    requires d.key == e.key
    ensures LiteralMap([d, e]) == map[e.key := e.def]
  {
    assert [d, e][..1] == [d] && [d][..0] == [];
    assert LiteralMap([d]) == map[d.key := d.def];
  }

  /** Evaluates the literal, in any order. */
  method GeneratedRegistry(entries: seq<Entry>) returns (r: Registry, ghost order: seq<Entry>)
    ensures fresh(r) && r.Valid() && OrderOf(order, entries) && r.model == LiteralMap(order)
  {
    r := new Registry();
    order := [];
    var todo := entries;
    while todo != []
      invariant fresh(r) && r.Valid() && r.model == LiteralMap(order)
      invariant OrderOf(order + todo, entries)
      decreases |todo|
    {
      var i: nat :| i < |todo|;
      var e := todo[i];
      TakeOut(order, todo, i);
      r.Register(e.key.src, e.key.dst, e.key.cmd, e.def);
      order, todo := order + [e], todo[..i] + todo[i + 1..];
      assert order[..|order| - 1] + [e] == order;
    }
    assert order + [] == order;
  }

  lemma TakeOut(order: seq<Entry>, todo: seq<Entry>, i: nat)
    requires i < |todo|
    ensures multiset(order + [todo[i]] + (todo[..i] + todo[i + 1..])) == multiset(order + todo)
  {
    assert todo == todo[..i] + [todo[i]] + todo[i + 1..];
  }

  /** A frame from the device that a packet describes. */
  predicate SentBy(f: Frame, pk: Packet) { FrameKey(f) == Key(pk.src, pk.dst, pk.cmd) }

  /** The telemetry means what the packet describes: every well-laid-out supported field that the payload reaches is
      there with its value, all fields are read as described but for the badly laid out ones, and without such
      fields the telemetry is exactly the one described. */
  ghost predicate Meant(al: Alphabet, pk: Packet, payload: seq<byte>, t: Telemetry) {
    && t.device == pk.name
    && (forall i | 0 <= i < |pk.fields| && Kind(pk.fields[i].parts).Some? && WellLaidOut(pk.fields[i].parts) ::
          forall v | VsfValue(payload, pk.fields[i]) == Some(v) ::
            TelemetryField(GoName(al, pk.fields[i].name), v, pk.fields[i].unitText) in t.fields)
    && t.fields == ActualTelemetry(al, payload, pk.fields)
    && (AllWellLaidOut(pk.fields) ==> t.fields == VsfTelemetry(al, payload, pk.fields))
  }

  lemma PacketMeant(al: Alphabet, pk: Packet, payload: seq<byte>)
    ensures Meant(al, pk, payload, Telemetry(pk.name, DecodeFields(payload, CompiledFields(al, pk.fields))))
  {
    FieldsPreserved(al, payload, pk.fields);
    if AllWellLaidOut(pk.fields) {
      NothingMisread(al, payload, pk.fields);
    }
    hide Kind, WellLaidOut, VsfValue, GoName, ActualTelemetry, VsfTelemetry, CompiledFields, DecodeFields;
    forall i, v | 0 <= i < |pk.fields| && Kind(pk.fields[i].parts).Some? && WellLaidOut(pk.fields[i].parts)
      && VsfValue(payload, pk.fields[i]) == Some(v)
      ensures TelemetryField(GoName(al, pk.fields[i].name), v, pk.fields[i].unitText)
           in ActualTelemetry(al, payload, pk.fields)
    {
      FieldArrives(al, payload, pk.fields, i);
    }
  }

  /** Compilation preserves meaning: in whatever order the literal is evaluated, and merged under any custom
      definitions, the generated ones make a frame decode to what its VSF packet describes, field by field, provided
      that the packet is selected, no other entry has its key, and no custom definition replaces it. */
  lemma CompilationPreservesMeaning(al: Alphabet, packets: seq<Packet>, order: seq<Entry>, custom: map<Key, PacketDef>,
                                    pk: Packet, f: Frame)
    requires OrderOf(order, CompiledPackets(al, packets))
    requires pk in packets && Selected(al, pk)
    requires Unrivalled(CompiledPackets(al, packets), CompiledPacket(al, pk))
    requires SentBy(f, pk) && FrameKey(f) !in custom
    ensures var model := LiteralMap(order) + custom;
      FrameKey(f) in model && Meant(al, pk, f.payload, Decoding(f, model[FrameKey(f)]))
  {
    EntriesIff(al, packets, CompiledPacket(al, pk));
    ReorderedHas(CompiledPackets(al, packets), order, CompiledPacket(al, pk));
    PacketMeant(al, pk, f.payload);
    hide Meant, LiteralMap, OrderOf, Unrivalled, CompiledPackets, CompiledFields, DecodeFields, Selected;
  }

  /** The packet that frame f is sure to be read by: selected and alone with its key. */
  predicate ReadBy(al: Alphabet, packets: seq<Packet>, pk: Packet, f: Frame) {
    && pk in packets && Selected(al, pk)
    && Unrivalled(CompiledPackets(al, packets), CompiledPacket(al, pk)) && SentBy(f, pk)
  }

  /** The whole way: generate, initialise the default registry in either order, and decode a frame. */
  method DecodeCompiled(al: Alphabet, packets: seq<Packet>, custom: Registry, customFirst: bool, f: Frame)
      returns (t: Telemetry, known: bool)
    requires al.Lawful() && custom.Valid()
    ensures forall pk | ReadBy(al, packets, pk, f) ::
      FrameKey(f) !in custom.model ==> known && Meant(al, pk, f.payload, t)
    ensures FrameKey(f) in custom.model ==> known && t == Decoding(f, custom.model[FrameKey(f)])
  {
    var entries := Generate(al, packets);
    var generated, order := GeneratedRegistry(entries);
    var reg := Initialise(custom, generated, customFirst);
    t, known := Decode(f, reg);
    hide Meant;
    forall pk | ReadBy(al, packets, pk, f)
      ensures FrameKey(f) !in custom.model ==> known && Meant(al, pk, f.payload, t)
    {
      if FrameKey(f) !in custom.model {
        CompilationPreservesMeaning(al, packets, order, custom.model, pk, f);
      }
    }
  }
}
