// The MQTT payload: telemetry values keyed by field name, and what equal names cost.
module Publishing {
  import opened Bytes
  import opened Options
  import opened Rounding
  import opened Registries
  import opened Layout
  import opened Names
  import opened Compiler

  // ---- The payload ---------------------------------------------------------------------------------

  /** The values by name; of equal names the last one stays. */
  function Values(fields: seq<TelemetryField>): map<string, real> {
    if fields == [] then map[]
    else
      var f := fields[|fields| - 1];
      Values(fields[..|fields| - 1])[f.name := f.value]
  }

  /** The units by name; a field without one leaves the entry of an equal name alone. */
  function Units(fields: seq<TelemetryField>): map<string, string> {
    if fields == [] then map[]
    else
      var f, front := fields[|fields| - 1], Units(fields[..|fields| - 1]);
      if f.unit != "" then front[f.name := f.unit] else front
  }

  /** The maps of a payload; no units at all are left out. */
  method BuildPayload(fields: seq<TelemetryField>)
      returns (values: map<string, real>, units: Option<map<string, string>>)
    ensures values == Values(fields)
    ensures units == if Units(fields) == map[] then None else Some(Units(fields))
  {
    values := map[];
    var named: map<string, string> := map[];
    for i := 0 to |fields|
      invariant values == Values(fields[..i]) && named == Units(fields[..i])
    {
      assert fields[..i + 1][..i] == fields[..i];
      var f := fields[i];
      values := values[f.name := f.value];
      if f.unit != "" {
        named := named[f.name := f.unit];
      }
    }
    assert fields[..|fields|] == fields;
    units := if |named| == 0 then None else Some(named);
  }

  // ---- What the payload holds ----------------------------------------------------------------------

  /** Field i is the last of its name. */
  predicate LastOfName(fields: seq<TelemetryField>, i: nat)
    requires i < |fields|
  {
    forall j | i < j < |fields| :: fields[j].name != fields[i].name
  }

  lemma {:induction false} LastOf(fields: seq<TelemetryField>, i: nat) returns (k: nat)
    requires i < |fields|
    ensures i <= k < |fields| && fields[k].name == fields[i].name && LastOfName(fields, k)
    decreases |fields| - i
  {
    if LastOfName(fields, i) {
      k := i;
    } else {
      var j :| i < j < |fields| && fields[j].name == fields[i].name;
      k := LastOf(fields, j);
    }
  }

  /** The payload has the value of the last field of each name. */
  lemma {:induction false} LastWins(fields: seq<TelemetryField>, i: nat)
    requires i < |fields| && LastOfName(fields, i)
    ensures fields[i].name in Values(fields) && Values(fields)[fields[i].name] == fields[i].value
  {
    var n := |fields| - 1;
    if i < n {
      assert fields[n].name != fields[i].name;
      LastWins(fields[..n], i);
    }
  }

  predicate Holds(fields: seq<TelemetryField>, i: nat)
    requires i < |fields|
  {
    fields[i].name in Values(fields) && Values(fields)[fields[i].name] == fields[i].value
  }

  predicate HoldsAll(fields: seq<TelemetryField>) {
    forall i | 0 <= i < |fields| :: Holds(fields, i)
  }

  /** The payload holds every value exactly when fields of equal names have equal values. */
  lemma HoldsAllIff(fields: seq<TelemetryField>)
    ensures HoldsAll(fields) <==>
            forall i, j | 0 <= i < j < |fields| && fields[i].name == fields[j].name ::
              fields[i].value == fields[j].value
  {
    if HoldsAll(fields) {
      forall i, j | 0 <= i < j < |fields| && fields[i].name == fields[j].name
        ensures fields[i].value == fields[j].value
      {
        assert Holds(fields, i) && Holds(fields, j);
      }
    } else {
      var i :| 0 <= i < |fields| && !Holds(fields, i);
      var k := LastOf(fields, i);
      LastWins(fields, k);
      assert i != k && fields[i].value != fields[k].value;
    }
  }

  predicate DistinctNames(names: seq<string>) {
    forall i, j | 0 <= i < j < |names| :: names[i] != names[j]
  }

  function FieldNames(fields: seq<TelemetryField>): (names: seq<string>)
    ensures |names| == |fields| && forall i | 0 <= i < |names| :: names[i] == fields[i].name
  {
    seq(|fields|, i requires 0 <= i < |fields| => fields[i].name)
  }

  lemma {:induction false} ValuesNamed(fields: seq<TelemetryField>, name: string)
    ensures name in Values(fields) <==> exists i :: 0 <= i < |fields| && fields[i].name == name
  {
    if fields != [] {
      var n := |fields| - 1;
      ValuesNamed(fields[..n], name);
      if name in Values(fields) && name != fields[n].name {
        var i :| 0 <= i < n && fields[..n][i].name == name;
        assert fields[i].name == name;
      }
      if i :| 0 <= i < |fields| && fields[i].name == name {
        assert i < n ==> fields[..n][i].name == name;
      }
    }
  }

  /** With one more field, names stay distinct exactly when the new one is not published yet. */
  lemma DistinctNext(fields: seq<TelemetryField>)
    requires fields != []
    ensures var n := |fields| - 1;
      DistinctNames(FieldNames(fields)) <==>
      DistinctNames(FieldNames(fields[..n])) && fields[n].name !in Values(fields[..n])
  {
    var n, names := |fields| - 1, FieldNames(fields);
    ValuesNamed(fields[..n], fields[n].name);
    DistinctSnoc(names);
    hide *;
    assert names[..n] == FieldNames(fields[..n]);
    assert forall i | 0 <= i < n :: names[i] == fields[..n][i].name;
  }

  /** The payload has as many values as there are fields exactly when their names are distinct. */
  lemma {:induction false} CountIff(fields: seq<TelemetryField>)
    ensures |Values(fields)| <= |fields|
    ensures |Values(fields)| == |fields| <==> DistinctNames(FieldNames(fields))
  {
    if fields != [] {
      var n := |fields| - 1;
      CountUpdate(Values(fields[..n]), fields[n].name, fields[n].value);
      assert Values(fields) == Values(fields[..n])[fields[n].name := fields[n].value];
      hide *;
      CountIff(fields[..n]);
      DistinctNext(fields);
    }
  }

  lemma CountUpdate<V>(m: map<string, V>, k: string, v: V)
    ensures |m[k := v]| == if k in m then |m| else |m| + 1
  {
    assert m[k := v].Keys == m.Keys + {k};
  }

  lemma DistinctSnoc(names: seq<string>)
    requires names != []
    ensures var n := |names| - 1;
      DistinctNames(names) <==> DistinctNames(names[..n]) && forall i | 0 <= i < n :: names[i] != names[n]
  {
  }

  // ---- Units ---------------------------------------------------------------------------------------

  function UnitFor(fields: seq<TelemetryField>, name: string): string {
    if name in Units(fields) then Units(fields)[name] else ""
  }

  /** Every published value has the unit of the field it came from. */
  predicate UnitsRight(fields: seq<TelemetryField>) {
    forall i | 0 <= i < |fields| && LastOfName(fields, i) :: UnitFor(fields, fields[i].name) == fields[i].unit
  }

  /** The unit published for a name is that of the last field of this name that has one. */
  lemma {:induction false} UnitOfLast(fields: seq<TelemetryField>, i: nat)
    requires i < |fields| && fields[i].unit != ""
    requires forall j | i < j < |fields| :: fields[j].name == fields[i].name ==> fields[j].unit == ""
    ensures UnitFor(fields, fields[i].name) == fields[i].unit
  {
    var n := |fields| - 1;
    if i < n {
      assert fields[n].name == fields[i].name ==> fields[n].unit == "";
      UnitOfLast(fields[..n], i);
    }
  }

  lemma {:induction false} NoUnit(fields: seq<TelemetryField>, name: string)
    requires forall j | 0 <= j < |fields| :: fields[j].name == name ==> fields[j].unit == ""
    ensures UnitFor(fields, name) == ""
  {
    if fields != [] {
      NoUnit(fields[..|fields| - 1], name);
    }
  }

  lemma {:induction false} StrayUnitStays(fields: seq<TelemetryField>, i: nat)
    requires i < |fields| && fields[i].unit != ""
    ensures UnitFor(fields, fields[i].name) != ""
  {
    var n := |fields| - 1;
    if i < n {
      StrayUnitStays(fields[..n], i);
    }
  }

  /** The units are right exactly when no field without a unit is the last of a name that an earlier field with a unit
      has. */
  lemma UnitsRightIff(fields: seq<TelemetryField>)
    ensures UnitsRight(fields) <==>
            forall i, j | 0 <= i < j < |fields| && fields[i].name == fields[j].name && LastOfName(fields, j) ::
              fields[i].unit != "" ==> fields[j].unit != ""
  {
    if UnitsRight(fields) {
      forall i, j | 0 <= i < j < |fields| && fields[i].name == fields[j].name && LastOfName(fields, j)
        ensures fields[i].unit != "" ==> fields[j].unit != ""
      {
        if fields[i].unit != "" {
          StrayUnitStays(fields, i);
        }
      }
    } else {
      var j :| 0 <= j < |fields| && LastOfName(fields, j) && UnitFor(fields, fields[j].name) != fields[j].unit;
      if fields[j].unit != "" {
        UnitOfLast(fields, j);
      } else if forall i | 0 <= i < |fields| :: fields[i].name == fields[j].name ==> fields[i].unit == "" {
        NoUnit(fields, fields[j].name);
      }
    }
  }

  /** A unit is published for exactly the names of fields that have one. */
  lemma {:induction false} UnitsNamed(fields: seq<TelemetryField>, name: string)
    ensures name in Units(fields) <==> exists f | f in fields :: f.name == name && f.unit != ""
    ensures name in Units(fields) ==> Units(fields)[name] != ""
  {
    if fields != [] {
      var n := |fields| - 1;
      UnitsNamed(fields[..n], name);
      assert fields == fields[..n] + [fields[n]];
    }
  }

  // ---- From a field table to the payload -----------------------------------------------------------

  function DefNames(defs: seq<FieldDef>): (names: seq<string>)
    ensures |names| == |defs| && forall i | 0 <= i < |names| :: names[i] == defs[i].name
  {
    seq(|defs|, i requires 0 <= i < |defs| => defs[i].name)
  }

  /** Whatever payload of this size arrives, every value decoded from it is published. */
  ghost predicate PublishesAll(defs: seq<FieldDef>, size: nat) {
    forall p: seq<byte> | |p| == size :: HoldsAll(DecodeFields(p, defs))
  }

  predicate Inside(d: FieldDef, size: nat)
    requires Numeric(d.kind)
  {
    d.offset + Width(d.kind) <= size
  }

  predicate HasDecimals(d: FieldDef, p: int) { d.factor == Pow10(-p) }

  /** The factor is a power of ten, down to four decimals. */
  ghost predicate Decimal(d: FieldDef) { exists p | p <= 4 :: HasDecimals(d, p) }

  predicate AllNumeric(defs: seq<FieldDef>) { forall d | d in defs :: Numeric(d.kind) }

  /** Two definitions read the same bytes in the same way. */
  predicate SameReading(a: FieldDef, b: FieldDef) { a.kind == b.kind && a.offset == b.offset && a.factor == b.factor }

  ghost predicate AlikeAt(a: FieldDef, b: FieldDef, size: nat) {
    forall p: seq<byte> | |p| == size :: ExtractValue(p, a) == ExtractValue(p, b)
  }

  // Payloads with a single byte set tell two readings apart.

  lemma OutsideByte(d: FieldDef, size: nat, at: nat, v: byte)
    requires Numeric(d.kind) && Inside(d, size) && at < size && !(d.offset <= at < d.offset + Width(d.kind))
    ensures ReadRaw(Single(size, at, v), d.kind, d.offset) == Some(0)
  {
  }

  lemma InsideByte(d: FieldDef, size: nat, at: nat)
    requires Numeric(d.kind) && Inside(d, size) && d.offset <= at < d.offset + Width(d.kind)
    ensures var r := ReadRaw(Single(size, at, 0x7F), d.kind, d.offset); r.Some? && r.value > 100
  {
  }

  lemma LowByte(d: FieldDef, size: nat)
    requires Numeric(d.kind) && Inside(d, size)
    ensures ReadRaw(Single(size, d.offset, 100), d.kind, d.offset) == Some(100)
  {
  }

  lemma TopByte(size: nat, offset: nat)
    requires offset + 2 <= size
    ensures ReadRaw(Single(size, offset + 1, 0xFF), Int16, offset) == Some(-256)
    ensures ReadRaw(Single(size, offset + 1, 0xFF), Uint16, offset) == Some(0xFF00)
  {
  }

  lemma ValueOfRaw(p: seq<byte>, d: FieldDef)
    requires Numeric(d.kind)
    ensures ExtractValue(p, d) ==
      match ReadRaw(p, d.kind, d.offset)
      case Some(raw) => Some(Value(raw, d.factor))
      case None => None
  {
  }

  lemma ZeroValue(factor: real)
    ensures Value(0, factor) == 0.0
  {
    assert Scaled(0, factor) == 0.0;
  }

  lemma LargeShows(raw: int, factor: real)
    requires raw > 100 && factor >= 0.0001
    ensures Value(raw, factor) > 0.0
  {
    ZeroValue(factor);
    ValueMonotone(0, raw, factor);
    if Value(raw, factor) == 0.0 {
      ValueNearest(raw, factor);
      ValueNearest(0, factor);
      hide *;
      ScaledGap(raw, 0, factor);
    }
  }

  lemma DecimalFloor(d: FieldDef)
    requires Decimal(d)
    ensures d.factor >= 0.0001
  {
    var p :| p <= 4 && HasDecimals(d, p);
    SmallPowers();
    Pow10Monotone(-4, -p);
  }

  /** Different powers of ten are at least a factor of ten apart. */
  lemma PowersApart(p: int, q: int)
    requires p < q
    ensures Pow10(-p) >= 10.0 * Pow10(-q)
  {
    Pow10Step(-q);
    Pow10Monotone(-q + 1, -p);
  }

  lemma FactorShows(f: real, g: real)
    requires f >= 10.0 * g && g >= 0.0001
    ensures Value(100, f) != Value(100, g)
  {
    ValueNearest(100, f);
    ValueNearest(100, g);
    assert Scaled(100, f) == 100.0 * f && Scaled(100, g) == 100.0 * g;
    hide *;
  }

  lemma FactorsDiffer(a: FieldDef, b: FieldDef)
    requires Decimal(a) && Decimal(b) && a.factor != b.factor
    ensures Value(100, a.factor) != Value(100, b.factor)
  {
    var p :| p <= 4 && HasDecimals(a, p);
    var q :| q <= 4 && HasDecimals(b, q);
    DecimalFloor(a);
    DecimalFloor(b);
    hide Pow10, Value, Decimal;
    if p < q {
      PowersApart(p, q);
      FactorShows(a.factor, b.factor);
    } else {
      PowersApart(q, p);
      FactorShows(b.factor, a.factor);
    }
  }

  /** A byte that only a reads makes a difference. */
  lemma OwnByteShows(a: FieldDef, b: FieldDef, size: nat, at: nat)
    requires Numeric(a.kind) && Numeric(b.kind) && Inside(a, size) && Inside(b, size) && Decimal(a)
    requires a.offset <= at < a.offset + Width(a.kind) && !(b.offset <= at < b.offset + Width(b.kind))
    ensures !AlikeAt(a, b, size) && !AlikeAt(b, a, size)
  {
    var p := Single(size, at, 0x7F);
    InsideByte(a, size, at);
    OutsideByte(b, size, at, 0x7F);
    ValueOfRaw(p, a);
    ValueOfRaw(p, b);
    DecimalFloor(a);
    ZeroValue(b.factor);
    LargeShows(ReadRaw(p, a.kind, a.offset).value, a.factor);
    hide ExtractValue, ReadRaw, Value, Single, Decimal, Width;
    assert ExtractValue(p, a) != ExtractValue(p, b);
  }

  lemma SignShows(a: FieldDef, b: FieldDef, size: nat)
    requires a.kind.Int16? && b.kind.Uint16? && a.offset == b.offset && a.offset + 2 <= size && Decimal(a) && Decimal(b)
    ensures !AlikeAt(a, b, size) && !AlikeAt(b, a, size)
  {
    var p := Single(size, a.offset + 1, 0xFF);
    TopByte(size, a.offset);
    ValueOfRaw(p, a);
    ValueOfRaw(p, b);
    DecimalFloor(a);
    DecimalFloor(b);
    ValueOdd(256, a.factor);
    LargeShows(256, a.factor);
    LargeShows(0xFF00, b.factor);
    hide ExtractValue, ReadRaw, Value, Single, Decimal;
    assert ExtractValue(p, a) != ExtractValue(p, b);
  }

  lemma FactorBetrays(a: FieldDef, b: FieldDef, size: nat)
    requires Numeric(a.kind) && a.kind == b.kind && a.offset == b.offset && Inside(a, size)
    requires Decimal(a) && Decimal(b) && a.factor != b.factor
    ensures !AlikeAt(a, b, size)
  {
    var p := Single(size, a.offset, 100);
    LowByte(a, size);
    ValueOfRaw(p, a);
    ValueOfRaw(p, b);
    FactorsDiffer(a, b);
    hide ExtractValue, ReadRaw, Value, Single, Decimal;
    assert ExtractValue(p, a) != ExtractValue(p, b);
  }

  /** A byte that one of two definitions reads and the other does not. */
  lemma OwnByte(a: FieldDef, b: FieldDef, size: nat)
    requires Numeric(a.kind) && Numeric(b.kind) && Inside(a, size) && Inside(b, size) && Decimal(a) && Decimal(b)
    requires a.offset != b.offset || Width(a.kind) != Width(b.kind)
    ensures !AlikeAt(a, b, size)
  {
    hide Decimal, AlikeAt, Inside;
    if a.offset < b.offset {
      OwnByteShows(a, b, size, a.offset);
    } else if b.offset < a.offset {
      OwnByteShows(b, a, size, b.offset);
    } else if Width(a.kind) > Width(b.kind) {
      OwnByteShows(a, b, size, a.offset + Width(b.kind));
    } else {
      OwnByteShows(b, a, size, a.offset + Width(a.kind));
    }
  }

  /** Two numeric definitions inside the payload extract the same value from every payload exactly when they have the
      same type, offset and factor. */
  lemma AlikeIff(a: FieldDef, b: FieldDef, size: nat)
    requires Numeric(a.kind) && Numeric(b.kind) && Inside(a, size) && Inside(b, size) && Decimal(a) && Decimal(b)
    ensures AlikeAt(a, b, size) <==> SameReading(a, b)
  {
    if !SameReading(a, b) {
      hide Decimal, AlikeAt;
      if a.offset != b.offset || Width(a.kind) != Width(b.kind) {
        OwnByte(a, b, size);
      } else if a.kind == b.kind {
        FactorBetrays(a, b, size);
      } else if a.kind.Int16? {
        SignShows(a, b, size);
      } else {
        SignShows(b, a, size);
      }
    } else {
      forall p: seq<byte> | |p| == size
        ensures ExtractValue(p, a) == ExtractValue(p, b)
      {
        ValueOfRaw(p, a);
        ValueOfRaw(p, b);
      }
    }
  }

  lemma InsideMeansRead(p: seq<byte>, d: FieldDef)
    requires Numeric(d.kind)
    ensures ExtractValue(p, d).Some? <==> Inside(d, |p|)
  {
  }

  /** What is decoded comes from the definitions. */
  lemma {:induction false} DecodedFrom(p: seq<byte>, defs: seq<FieldDef>, x: TelemetryField)
    ensures x in DecodeFields(p, defs) <==> exists d | d in defs :: DecodeField(p, d) == [x]
  {
    if defs != [] {
      var n := |defs| - 1;
      hide DecodeField;
      DecodedFrom(p, defs[..n], x);
      FieldIsOne(p, defs[n]);
      assert defs == defs[..n] + [defs[n]];
    }
  }

  lemma FieldIsOne(p: seq<byte>, d: FieldDef)
    ensures |DecodeField(p, d)| <= 1
    ensures forall x :: DecodeField(p, d) == [x] <==>
      ExtractValue(p, d) == Some(x.value) && x.name == d.name && x.unit == d.unit
  {
    hide ExtractValue;
  }

  lemma HoldsAllMeans(fields: seq<TelemetryField>)
    ensures HoldsAll(fields) <==> forall x, y | x in fields && y in fields && x.name == y.name :: x.value == y.value
  {
    HoldsAllIff(fields);
    hide HoldsAll;
    if forall i, j | 0 <= i < j < |fields| && fields[i].name == fields[j].name :: fields[i].value == fields[j].value {
      forall x, y | x in fields && y in fields && x.name == y.name
        ensures x.value == y.value
      {
        var i :| 0 <= i < |fields| && fields[i] == x;
        var j :| 0 <= j < |fields| && fields[j] == y;
        assert i < j ==> fields[i].value == fields[j].value;
        assert j < i ==> fields[j].value == fields[i].value;
      }
    }
  }

  /** Fields of one name that the payload reaches read the same bytes in the same way. */
  ghost predicate NoConflict(defs: seq<FieldDef>, size: nat)
    requires AllNumeric(defs)
  {
    forall d, e | d in defs && e in defs && d.name == e.name && Inside(d, size) && Inside(e, size) :: SameReading(d, e)
  }

  /** A table with at most four decimals has all its values published exactly when any two fields of one name that the
      payload reaches have the same type, offset and factor. */
  lemma PublishesAllIff(defs: seq<FieldDef>, size: nat)
    requires AllNumeric(defs) && forall d | d in defs :: Decimal(d)
    ensures PublishesAll(defs, size) <==> NoConflict(defs, size)
  {
    hide HoldsAll, DecodeFields, AlikeAt, Decimal;
    if NoConflict(defs, size) {
      forall p: seq<byte> | |p| == size
        ensures HoldsAll(DecodeFields(p, defs))
      {
        NoConflictHolds(p, defs);
      }
    }
    if PublishesAll(defs, size) {
      forall d, e | d in defs && e in defs && d.name == e.name && Inside(d, size) && Inside(e, size)
        ensures SameReading(d, e)
      {
        PublishedAlike(defs, size, d, e);
        AlikeIff(d, e, size);
      }
    }
  }

  lemma NoConflictHolds(p: seq<byte>, defs: seq<FieldDef>)
    requires AllNumeric(defs) && NoConflict(defs, |p|)
    ensures HoldsAll(DecodeFields(p, defs))
  {
    var t := DecodeFields(p, defs);
    hide HoldsAll, DecodeFields, DecodeField, ExtractValue;
    forall x, y | x in t && y in t && x.name == y.name
      ensures x.value == y.value
    {
      DecodedFrom(p, defs, x);
      DecodedFrom(p, defs, y);
      var d :| d in defs && DecodeField(p, d) == [x];
      var e :| e in defs && DecodeField(p, e) == [y];
      FieldIsOne(p, d);
      FieldIsOne(p, e);
      InsideMeansRead(p, d);
      InsideMeansRead(p, e);
      assert SameReading(d, e);
      ValueOfRaw(p, d);
      ValueOfRaw(p, e);
    }
    HoldsAllMeans(t);
  }

  lemma PublishedAlike(defs: seq<FieldDef>, size: nat, d: FieldDef, e: FieldDef)
    requires PublishesAll(defs, size) && d in defs && e in defs && d.name == e.name
    requires Numeric(d.kind) && Numeric(e.kind) && Inside(d, size) && Inside(e, size)
    ensures AlikeAt(d, e, size)
  {
    hide HoldsAll, DecodeFields, DecodeField, ExtractValue;
    forall p: seq<byte> | |p| == size
      ensures ExtractValue(p, d) == ExtractValue(p, e)
    {
      InsideMeansRead(p, d);
      InsideMeansRead(p, e);
      var x := TelemetryField(d.name, ExtractValue(p, d).value, d.unit);
      var y := TelemetryField(e.name, ExtractValue(p, e).value, e.unit);
      FieldIsOne(p, d);
      FieldIsOne(p, e);
      DecodedFrom(p, defs, x);
      DecodedFrom(p, defs, y);
      HoldsAllMeans(DecodeFields(p, defs));
    }
  }

  /** Distinct names are enough. */
  lemma DistinctPublished(defs: seq<FieldDef>, size: nat)
    requires AllNumeric(defs) && (forall d | d in defs :: Decimal(d)) && DistinctNames(DefNames(defs))
    ensures PublishesAll(defs, size)
  {
    PublishesAllIff(defs, size);
    forall d, e | d in defs && e in defs && d.name == e.name
      ensures d == e
    {
      var i :| 0 <= i < |defs| && defs[i] == d;
      var j :| 0 <= j < |defs| && defs[j] == e;
      assert DefNames(defs)[i] == DefNames(defs)[j];
    }
  }

  /** They are not necessary: a field that is listed twice, as in the shipped table of device 0x7101, loses nothing. */
  lemma TwinsPublished(size: nat)
    ensures var d := FieldDef("flow_rate_vfs", 16, Int16, 1.0, " l/h", 0);
      PublishesAll([d, d], size) && !DistinctNames(DefNames([d, d]))
  {
    var d := FieldDef("flow_rate_vfs", 16, Int16, 1.0, " l/h", 0);
    assert HasDecimals(d, 0);
    PublishesAllIff([d, d], size);
    assert DefNames([d, d])[0] == DefNames([d, d])[1];
  }

  lemma DistinctHeld(defs: seq<FieldDef>, raws: seq<int>)
    requires |raws| == |defs| && DistinctNames(DefNames(defs))
    ensures HoldsAll(Expected(defs, raws))
  {
    var t := Expected(defs, raws);
    hide Value;
    assert forall i | 0 <= i < |t| :: t[i].name == DefNames(defs)[i];
    HoldsAllIff(t);
  }

  // ---- Generated tables ----------------------------------------------------------------------------

  /** The fields of a packet that the generator keeps. */
  function Supported(fields: seq<Field>): (kept: seq<Field>)
    ensures forall f | f in kept :: Kind(f.parts).Some?
  {
    if fields == [] then []
    else
      var f := fields[|fields| - 1];
      Supported(fields[..|fields| - 1]) + if Kind(f.parts).Some? then [f] else []
  }

  lemma {:induction false} KeptCompiled(al: Alphabet, fields: seq<Field>)
    ensures |CompiledFields(al, fields)| == |Supported(fields)|
    ensures forall i | 0 <= i < |Supported(fields)| ::
      Kind(Supported(fields)[i].parts).Some? && CompiledFields(al, fields)[i] == CompiledField(al, Supported(fields)[i])
  {
    if fields != [] {
      hide Kind, CompiledField;
      KeptCompiled(al, fields[..|fields| - 1]);
    }
  }

  lemma CompiledNames(al: Alphabet, fields: seq<Field>)
    ensures |CompiledFields(al, fields)| == |Supported(fields)|
    ensures forall i | 0 <= i < |Supported(fields)| ::
      && CompiledFields(al, fields)[i].name == GoName(al, Supported(fields)[i].name)
      && CompiledFields(al, fields)[i].factor == Pow10(-Supported(fields)[i].precision)
  {
    KeptCompiled(al, fields);
    hide CompiledFields, Supported, Kind, GoName, Pow10;
  }

  /** A generated table has distinct names exactly when no two of the fields kept consist of the same words. */
  lemma GeneratedNamesIff(al: Alphabet, fields: seq<Field>)
    requires al.Lawful()
    ensures var kept := Supported(fields);
      DistinctNames(DefNames(CompiledFields(al, fields))) <==>
      forall i, j | 0 <= i < j < |kept| :: NameWords(al, kept[i].name) != NameWords(al, kept[j].name)
  {
    var kept, names := Supported(fields), DefNames(CompiledFields(al, fields));
    CompiledNames(al, fields);
    hide CompiledFields, Supported, GoName, NameWords;
    forall i, j | 0 <= i < j < |kept|
      ensures names[i] == names[j] <==> NameWords(al, kept[i].name) == NameWords(al, kept[j].name)
    {
      GoNameAgreeIff(al, kept[i].name, kept[j].name);
    }
  }

  /** Two fields of the same words, both inside the payload, have the same type, offset and precision. */
  ghost predicate NoWordConflict(al: Alphabet, kept: seq<Field>, size: nat)
    requires forall f | f in kept :: Kind(f.parts).Some?
  {
    forall f, g | f in kept && g in kept && NameWords(al, f.name) == NameWords(al, g.name)
      && Inside(CompiledField(al, f), size) && Inside(CompiledField(al, g), size) ::
      Kind(f.parts) == Kind(g.parts) && f.parts[0].offset == g.parts[0].offset && f.precision == g.precision
  }

  lemma SameReadingIff(al: Alphabet, f: Field, g: Field)
    requires Kind(f.parts).Some? && Kind(g.parts).Some?
    ensures SameReading(CompiledField(al, f), CompiledField(al, g)) <==>
            Kind(f.parts) == Kind(g.parts) && f.parts[0].offset == g.parts[0].offset && f.precision == g.precision
  {
    Pow10Injective(f.precision, g.precision);
    hide Kind, Pow10;
  }

  lemma Pow10Injective(p: int, q: int)
    ensures Pow10(-p) == Pow10(-q) <==> p == q
  {
    if p < q {
      PowersApart(p, q);
    } else if q < p {
      PowersApart(q, p);
    }
  }

  lemma KeptNumeric(al: Alphabet, f: Field)
    requires Kind(f.parts).Some?
    ensures Numeric(CompiledField(al, f).kind)
    ensures f.precision <= 4 ==> Decimal(CompiledField(al, f))
  {
    hide Pow10;
    assert HasDecimals(CompiledField(al, f), f.precision);
  }

  lemma KeptMembers(al: Alphabet, fields: seq<Field>, d: FieldDef)
    ensures d in CompiledFields(al, fields) <==> exists f | f in Supported(fields) :: d == CompiledField(al, f)
  {
    KeptCompiled(al, fields);
    var defs, kept := CompiledFields(al, fields), Supported(fields);
    hide CompiledField, Kind, CompiledFields, Supported;
    if d in defs {
      var i :| 0 <= i < |defs| && defs[i] == d;
      assert kept[i] in kept;
    }
    if f :| f in kept && d == CompiledField(al, f) {
      var i :| 0 <= i < |kept| && kept[i] == f;
      assert defs[i] == d;
    }
  }

  /** All values of a generated device are published exactly when any two of its fields of the same words that the
      payload reaches have the same type, offset and precision. */
  lemma PublishedPacketIff(al: Alphabet, fields: seq<Field>, size: nat)
    requires al.Lawful()
    requires forall f | f in Supported(fields) :: f.precision <= 4
    ensures PublishesAll(CompiledFields(al, fields), size) <==> NoWordConflict(al, Supported(fields), size)
  {
    var defs, kept := CompiledFields(al, fields), Supported(fields);
    KeptTable(al, fields);
    PublishesAllIff(defs, size);
    hide PublishesAll, Kind, NameWords, Pow10, GoName, CompiledFields, Supported, Decimal;
    forall f, g | f in kept && g in kept
      ensures CompiledField(al, f) in defs && CompiledField(al, g) in defs
      ensures CompiledField(al, f).name == CompiledField(al, g).name <==>
              NameWords(al, f.name) == NameWords(al, g.name)
      ensures SameReading(CompiledField(al, f), CompiledField(al, g)) <==>
              Kind(f.parts) == Kind(g.parts) && f.parts[0].offset == g.parts[0].offset && f.precision == g.precision
    {
      KeptMembers(al, fields, CompiledField(al, f));
      KeptMembers(al, fields, CompiledField(al, g));
      GoNameAgreeIff(al, f.name, g.name);
      SameReadingIff(al, f, g);
    }
    forall d | d in defs
      ensures exists f | f in kept :: d == CompiledField(al, f)
    {
      KeptMembers(al, fields, d);
    }
  }

  lemma KeptTable(al: Alphabet, fields: seq<Field>)
    requires forall f | f in Supported(fields) :: f.precision <= 4
    ensures AllNumeric(CompiledFields(al, fields)) && forall d | d in CompiledFields(al, fields) :: Decimal(d)
  {
    hide CompiledField, CompiledFields, Supported, Kind, Decimal;
    forall d | d in CompiledFields(al, fields)
      ensures Numeric(d.kind) && Decimal(d)
    {
      KeptMembers(al, fields, d);
      var f :| f in Supported(fields) && d == CompiledField(al, f);
      KeptNumeric(al, f);
    }
  }

  // ---- Inputs that lose something ------------------------------------------------------------------

  /** Three counters of one name, as in the shipped table of device 0x2232: two of them are lost. */
  lemma HeatCollapses(a: real, b: real, c: real)
    ensures var fields := [TelemetryField("heat", a, " Wh"), TelemetryField("heat", b, " kWh"),
                           TelemetryField("heat", c, " MWh")];
      Values(fields) == map["heat" := c] && Units(fields) == map["heat" := " MWh"]
  {
    var f, g := TelemetryField("heat", a, " Wh"), TelemetryField("heat", b, " kWh");
    var h := TelemetryField("heat", c, " MWh");
    assert [f, g, h][..2] == [f, g] && [f, g][..1] == [f] && [f][..0] == [];
    assert Values([f]) == map["heat" := a] && Units([f]) == map["heat" := " Wh"];
    assert Values([f, g]) == map["heat" := b] && Units([f, g]) == map["heat" := " kWh"];
  }

  /** A value without a unit is published with that of another of its name. */
  lemma StrayUnit(a: real, b: real)
    ensures var fields := [TelemetryField("heat", a, " Wh"), TelemetryField("heat", b, "")];
      Values(fields) == map["heat" := b] && Units(fields) == map["heat" := " Wh"] && !UnitsRight(fields)
  {
    var f, g := TelemetryField("heat", a, " Wh"), TelemetryField("heat", b, "");
    assert [f, g][..1] == [f] && [f][..0] == [];
    assert Values([f]) == map["heat" := a] && Units([f]) == map["heat" := " Wh"];
    assert LastOfName([f, g], 1) && UnitFor([f, g], "heat") == " Wh";
  }
}
