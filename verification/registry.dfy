// Packet definitions, the packed-key registry and the extraction of telemetry values.
module Registries {
  import opened Bytes
  import opened Wire
  import opened Rounding
  import opened Hex
  import opened Options

  datatype FieldType = Int16 | Uint8 | Uint16 | Uint32 | Bit | Other(code: byte)

  datatype FieldDef =
    FieldDef(name: string, offset: nat, kind: FieldType, factor: real, unit: string, bitIndex: int)

  datatype PacketDef = PacketDef(deviceName: string, fields: seq<FieldDef>)

  datatype TelemetryField = TelemetryField(name: string, value: real, unit: string)

  // ---- Extraction --------------------------------------------------------------------------------

  function Le32(b0: byte, b1: byte, b2: byte, b3: byte): nat {
    b0 + 0x100 * b1 + 0x1_0000 * b2 + 0x100_0000 * b3
  }

  function AsInt16(x: u16): int { if x >= 0x8000 then x - 0x1_0000 else x }

  /** The unscaled integer a numeric field reads, or None where the payload is too short. */
  function ReadRaw(payload: seq<byte>, kind: FieldType, offset: nat): Option<int> {
    match kind
    case Uint8 =>
      if offset >= |payload| then None else Some(payload[offset])
    case Int16 =>
      if offset + 2 > |payload| then None else Some(AsInt16(Le16(payload[offset], payload[offset + 1])))
    case Uint16 =>
      if offset + 2 > |payload| then None else Some(Le16(payload[offset], payload[offset + 1]))
    case Uint32 =>
      if offset + 4 > |payload| then None
      else Some(Le32(payload[offset], payload[offset + 1], payload[offset + 2], payload[offset + 3]))
    case _ => None
  }

  function ExtractValue(payload: seq<byte>, fd: FieldDef): Option<real> {
    match fd.kind
    case Bit =>
      if fd.offset >= |payload| then None
      else if BitSet(payload[fd.offset], fd.bitIndex) then Some(1.0)
      else Some(0.0)
    case _ =>
      match ReadRaw(payload, fd.kind, fd.offset)
      case Some(raw) => Some(Value(raw, fd.factor))
      case None => None
  }

  /** A reading half-way between two hundredths is decoded to the one farther from zero. */
  lemma HalfHundredthRead()
    ensures var fd := FieldDef("resistor_sensor_1", 0, Uint32, 0.001, "", 0);
      && ExtractValue([5, 0, 0, 0], fd) == Some(0.01) && ExtractValue([15, 0, 0, 0], fd) == Some(0.02)
      && ExtractValue([4, 0, 0, 0], fd) == Some(0.0)
  {
    ThousandthsTie();
    hide Value;
    assert Le32(5, 0, 0, 0) == 5 && Le32(15, 0, 0, 0) == 15 && Le32(4, 0, 0, 0) == 4;
  }

  function BitField(offset: nat, i: int): FieldDef { FieldDef("", offset, Bit, 1.0, "", i) }

  /** The eight bit fields of a byte are its binary digits, lowest first; other indices always read zero. */
  lemma BitFieldsAreDigits(payload: seq<byte>, o: nat)
    requires o < |payload|
    ensures forall i | 0 <= i < 8 :: ExtractValue(payload, BitField(o, i)).Some?
    ensures payload[o] as real ==
      ExtractValue(payload, BitField(o, 0)).value + 2.0 * ExtractValue(payload, BitField(o, 1)).value
      + 4.0 * ExtractValue(payload, BitField(o, 2)).value + 8.0 * ExtractValue(payload, BitField(o, 3)).value
      + 16.0 * ExtractValue(payload, BitField(o, 4)).value + 32.0 * ExtractValue(payload, BitField(o, 5)).value
      + 64.0 * ExtractValue(payload, BitField(o, 6)).value + 128.0 * ExtractValue(payload, BitField(o, 7)).value
    ensures forall i | !(0 <= i < 8) :: ExtractValue(payload, BitField(o, i)) == Some(0.0)
  {
    BinaryDigits(payload[o]);
  }

  /** The telemetry of a payload: the fields that fit, in definition order. */
  function DecodeFields(payload: seq<byte>, defs: seq<FieldDef>): seq<TelemetryField> {
    if defs == [] then []
    else DecodeFields(payload, defs[..|defs| - 1]) + DecodeField(payload, defs[|defs| - 1])
  }

  function DecodeField(payload: seq<byte>, fd: FieldDef): seq<TelemetryField> {
    match ExtractValue(payload, fd)
    case Some(v) => [TelemetryField(fd.name, v, fd.unit)]
    case None => []
  }

  /** a arises from b by leaving elements out. */
  predicate Subsequence<T(==)>(a: seq<T>, b: seq<T>) {
    if a == [] then true
    else if b == [] then false
    else (a[|a| - 1] == b[|b| - 1] && Subsequence(a[..|a| - 1], b[..|b| - 1])) || Subsequence(a, b[..|b| - 1])
  }

  /** A longer payload with the same beginning reads every field of the shorter one alike. */
  lemma ExtractMonotone(p: seq<byte>, q: seq<byte>, fd: FieldDef)
    requires p <= q
    ensures ExtractValue(p, fd).Some? ==> ExtractValue(q, fd) == ExtractValue(p, fd)
  {
  }

  /** Telemetry from a shorter payload is an order-preserving part of that from any extension. */
  lemma {:induction false} PayloadMonotone(p: seq<byte>, q: seq<byte>, defs: seq<FieldDef>)
    requires p <= q
    ensures Subsequence(DecodeFields(p, defs), DecodeFields(q, defs))
  {
    if defs != [] {
      var front, fd := defs[..|defs| - 1], defs[|defs| - 1];
      PayloadMonotone(p, q, front);
      ExtractMonotone(p, q, fd);
      if ExtractValue(p, fd).Some? {
        SubsequenceBoth(DecodeFields(p, front), DecodeFields(q, front), DecodeField(q, fd)[0]);
      } else {
        assert DecodeFields(p, defs) == DecodeFields(p, front);
        if ExtractValue(q, fd).Some? {
          SubsequenceSkip(DecodeFields(p, front), DecodeFields(q, front), DecodeField(q, fd)[0]);
        } else {
          assert DecodeFields(q, defs) == DecodeFields(q, front);
        }
      }
    }
  }

  lemma SubsequenceBoth<T>(a: seq<T>, b: seq<T>, x: T)
    requires Subsequence(a, b)
    ensures Subsequence(a + [x], b + [x])
  {
    assert (a + [x])[..|a|] == a && (b + [x])[..|b|] == b;
  }

  lemma SubsequenceSkip<T>(a: seq<T>, b: seq<T>, x: T)
    requires Subsequence(a, b)
    ensures Subsequence(a, b + [x])
  {
    assert (b + [x])[..|b|] == b;
  }

  // ---- Packed keys -------------------------------------------------------------------------------

  datatype Key = Key(src: u16, dst: u16, cmd: u16)

  function PKey(k: Key): nat {
    k.src * 0x1_0000_0000 + k.dst * 0x1_0000 + k.cmd
  }

  function Unpack(n: nat): Key
    requires n < 0x1_0000_0000_0000
  {
    Key(n / 0x1_0000_0000, n / 0x1_0000 % 0x1_0000, n % 0x1_0000)
  }

  lemma UnpackPKey(k: Key)
    ensures PKey(k) < 0x1_0000_0000_0000 && Unpack(PKey(k)) == k
  {
    var n := PKey(k);
    assert n == (k.src * 0x1_0000 + k.dst) * 0x1_0000 + k.cmd;
    assert n / 0x1_0000 == k.src * 0x1_0000 + k.dst;
  }

  /** Packing loses nothing. */
  lemma PKeyInjective(j: Key, k: Key)
    ensures PKey(j) == PKey(k) <==> j == k
  {
    UnpackPKey(j);
    UnpackPKey(k);
  }

  // ---- The registry ------------------------------------------------------------------------------

  ghost predicate Covered(m: map<Key, PacketDef>, n: nat) {
    n < 0x1_0000_0000_0000 && Unpack(n) in m && PKey(Unpack(n)) == n
  }

  /** The packed map e holds exactly the definitions of m. */
  ghost predicate Packs(e: map<nat, PacketDef>, m: map<Key, PacketDef>) {
    && (forall k | k in m :: PKey(k) in e && e[PKey(k)] == m[k])
    && (forall n | n in e :: Covered(m, n))
  }

  lemma PacksLookup(e: map<nat, PacketDef>, m: map<Key, PacketDef>, k: Key)
    requires Packs(e, m)
    ensures PKey(k) in e <==> k in m
    ensures k in m ==> e[PKey(k)] == m[k]
  {
    UnpackPKey(k);
    if PKey(k) in e {
      assert Covered(m, PKey(k));
    }
  }

  lemma PacksUnion(e: map<nat, PacketDef>, m: map<Key, PacketDef>, f: map<nat, PacketDef>, n: map<Key, PacketDef>)
    requires Packs(e, m) && Packs(f, n)
    ensures Packs(e + f, m + n)
  {
    forall k | k in m + n
      ensures PKey(k) in e + f && (e + f)[PKey(k)] == (m + n)[k]
    {
      PacksLookup(e, m, k);
      PacksLookup(f, n, k);
    }
    forall p | p in e + f
      ensures Covered(m + n, p)
    {
      assert Covered(n, p) || Covered(m, p);
    }
  }

  lemma PacksUpdate(e: map<nat, PacketDef>, m: map<Key, PacketDef>, k: Key, d: PacketDef)
    requires Packs(e, m)
    ensures Packs(e[PKey(k) := d], m[k := d])
  {
    UnpackPKey(k);
    assert Covered(map[k := d], PKey(k));
    PacksUnion(e, m, map[PKey(k) := d], map[k := d]);
    assert e[PKey(k) := d] == e + map[PKey(k) := d] && m[k := d] == m + map[k := d];
  }

  /** The init loop of the custom definitions: they overwrite, whatever the iteration order. */
  method Overwrite(base: map<nat, PacketDef>, custom: map<nat, PacketDef>) returns (r: map<nat, PacketDef>)
    ensures r == base + custom
  {
    r := base;
    var todo := custom.Keys;
    while todo != {}
      invariant todo <= custom.Keys
      invariant r.Keys == base.Keys + (custom.Keys - todo)
      invariant forall k | k in r :: r[k] == if k in custom && k !in todo then custom[k] else base[k]
    {
      var k :| k in todo;
      r := r[k := custom[k]];
      todo := todo - {k};
    }
  }

  /** The init loop of the generated definitions: they only fill gaps, whatever the iteration order. */
  method FillGaps(base: map<nat, PacketDef>, generated: map<nat, PacketDef>) returns (r: map<nat, PacketDef>)
    ensures r == generated + base
  {
    r := base;
    var todo := generated.Keys;
    while todo != {}
      invariant todo <= generated.Keys
      invariant r.Keys == base.Keys + (generated.Keys - todo)
      invariant forall k | k in r :: r[k] == if k in base then base[k] else generated[k]
    {
      var k :| k in todo;
      if k !in r {
        r := r[k := generated[k]];
      }
      todo := todo - {k};
    }
  }

  class Registry {
    var entries: map<nat, PacketDef>
    ghost var model: map<Key, PacketDef>   // the registry as a map on address triples

    ghost predicate Valid()
      reads this
    {
      Packs(entries, model)
    }

    constructor ()
      ensures Valid() && model == map[] && fresh(this)
    {
      entries, model := map[], map[];
    }

    method Lookup(src: u16, dst: u16, cmd: u16) returns (d: Option<PacketDef>)
      requires Valid()
      ensures d == if Key(src, dst, cmd) in model then Some(model[Key(src, dst, cmd)]) else None
    {
      PacksLookup(entries, model, Key(src, dst, cmd));
      var k := PKey(Key(src, dst, cmd));
      d := if k in entries then Some(entries[k]) else None;
    }

    method Register(src: u16, dst: u16, cmd: u16, def: PacketDef)
      requires Valid()
      modifies this
      ensures Valid() && model == old(model)[Key(src, dst, cmd) := def]
    {
      PacksUpdate(entries, model, Key(src, dst, cmd), def);
      entries := entries[PKey(Key(src, dst, cmd)) := def];
      model := model[Key(src, dst, cmd) := def];
    }

    method AddCustom(custom: Registry)
      requires Valid() && custom.Valid() && custom != this
      modifies this
      ensures Valid() && model == old(model) + custom.model
    {
      PacksUnion(entries, model, custom.entries, custom.model);
      entries := Overwrite(entries, custom.entries);
      model := model + custom.model;
    }

    method AddGenerated(generated: Registry)
      requires Valid() && generated.Valid() && generated != this
      modifies this
      ensures Valid() && model == generated.model + old(model)
    {
      PacksUnion(generated.entries, generated.model, entries, model);
      entries := FillGaps(entries, generated.entries);
      model := generated.model + model;
    }
  }

  /** Custom entries win over generated ones whichever init function runs first. */
  method Initialise(custom: Registry, generated: Registry, customFirst: bool) returns (r: Registry)
    requires custom.Valid() && generated.Valid()
    ensures fresh(r) && r.Valid()
    ensures r.model == generated.model + custom.model
  {
    r := new Registry();
    if customFirst {
      r.AddCustom(custom);
      assert r.model == custom.model;
      r.AddGenerated(generated);
    } else {
      r.AddGenerated(generated);
      assert r.model == generated.model;
      r.AddCustom(custom);
    }
  }

  // ---- Decoding a frame --------------------------------------------------------------------------

  datatype Telemetry = Telemetry(device: string, fields: seq<TelemetryField>)

  function FrameKey(f: Frame): Key { Key(f.source, f.destination, f.command) }

  function Decoding(f: Frame, def: PacketDef): Telemetry {
    Telemetry(def.deviceName, DecodeFields(f.payload, def.fields))
  }

  method Decode(f: Frame, reg: Registry) returns (t: Telemetry, known: bool)
    requires reg.Valid()
    ensures known <==> FrameKey(f) in reg.model
    ensures known ==> t == Decoding(f, reg.model[FrameKey(f)])
    ensures !known ==> t == Telemetry("src_0x" + Hex4(f.source), [])
  {
    hide ExtractValue, Packs, PKey;
    var found := reg.Lookup(f.source, f.destination, f.command);
    match found
    case None =>
      t, known := Telemetry("src_0x" + Hex4(f.source), []), false;
    case Some(def) =>
      var fields := [];
      for i := 0 to |def.fields|
        invariant fields == DecodeFields(f.payload, def.fields[..i])
      {
        assert def.fields[..i + 1][..i] == def.fields[..i];
        var fd := def.fields[i];
        match ExtractValue(f.payload, fd)
        case None =>
        case Some(val) =>
          fields := fields + [TelemetryField(fd.name, val, fd.unit)];
      }
      assert def.fields[..|def.fields|] == def.fields;
      t, known := Telemetry(def.deviceName, fields), true;
  }
}
