/** Variant (section 5.2.2.16 of OPC 10000-6) and DateTime. */
module OpcUaVariant {
  import opened Bytes
  import opened Collections
  import opened OpcUaReader
  import opened Bronze

  const T_BOOLEAN := 1
  const T_SBYTE := 2
  const T_INT32 := 6
  const T_UINT64 := 9
  const T_FLOAT := 10
  const T_DOUBLE := 11
  const T_STRING := 12
  const T_DATETIME := 13
  const T_GUID := 14
  const T_BYTESTRING := 15
  const FLAG_IS_ARRAY := 0x80
  const FLAG_HAS_DIMENSIONS := 0x40

  const TICKS_1601_TO_1970 := 116_444_736_000_000_000

  /** 100-ns ticks since 1601 to microseconds since 1970; none for null and pre-1970 times. */
  function UnixMicros(ticks: int): (us: Option<nat>)
    ensures forall u: nat :: us == Some(u) <==> TICKS_1601_TO_1970 + 10 * u <= ticks < TICKS_1601_TO_1970 + 10 * u + 10
  {
    if ticks == 0 then None
    else if ticks - TICKS_1601_TO_1970 < 0 then None
    else Some((ticks - TICKS_1601_TO_1970) / 10)
  }

  // ---- Decoding at an offset ----

  /** Integer built-in types run SByte, Byte, Int16, UInt16, ..., UInt64; the signed ones are even. */
  predicate IsInteger(t: nat) { T_SBYTE <= t <= T_UINT64 }

  function IntegerWidth(t: nat): nat
    requires IsInteger(t)
  { [1, 2, 4, 8][t / 2 - 1] }


  function ScalarAt(s: seq<byte>, p: nat, t: nat): (r: Parsed<PointValue>)
    ensures r.Within(s, p)
  {
    if t == T_BOOLEAN then
      var (b, q) :- U8At(s, p);
      Ok(Bool(b != 0), q)
    else if IsInteger(t) then
      var k := IntegerWidth(t);
      if t % 2 == 0 then
        var (v, q) :- IntAt(s, p, k);
        Ok(Int(k, v), q)
      else
        var (n, q) :- UintAt(s, p, k);
        Ok(UInt(k, n), q)
    else if t == T_FLOAT then
      var (n, q) :- UintAt(s, p, 4);
      Ok(Float(n), q)
    else if t == T_DOUBLE then
      var (n, q) :- UintAt(s, p, 8);
      Ok(Double(n), q)
    else if t == T_STRING then
      var (b, q) :- StringAt(s, p);
      Ok(if b.None? then Null else Text(b.value), q)
    else if t == T_DATETIME then
      var (ticks, q) :- IntAt(s, p, 8);
      Ok(if UnixMicros(ticks).None? then Null else DateTime(UnixMicros(ticks).value), q)
    else if t == T_GUID then
      var (b, q) :- BytesAt(s, p, 16);
      Ok(PointValue.Bytes(b), q)
    else if t == T_BYTESTRING then
      var (b, q) :- ByteStringAt(s, p);
      Ok(if b.None? then Null else PointValue.Bytes(b.value), q)
    else Ok(Null, p)
  }

  function ScalarItem(s: seq<byte>, t: nat): nat -> Parsed<PointValue> {
    (q: nat) => ScalarAt(s, q, t)
  }

  function ArrayAt(s: seq<byte>, p: nat, t: nat): (r: Parsed<()>)
    ensures r.Within(s, p)
  {
    var (n, q) :- ArrayLengthAt(s, p);
    if n.None? then Ok((), q) else
    ManyWithin(s, ScalarItem(s, t), q, n.value);
    var (_, e) :- Many(ScalarItem(s, t), q, n.value);
    Ok((), e)
  }

  function VariantAt(s: seq<byte>, p: nat): (r: Parsed<PointValue>)
    ensures r.Within(s, p)
  {
    var (mask, q) :- U8At(s, p);
    if HasFlag(mask, FLAG_IS_ARRAY) then
      var (_, a) :- ArrayAt(s, q, mask % 64);
      if HasFlag(mask, FLAG_HAS_DIMENSIONS) then
        var (_, b) :- ArrayAt(s, a, T_INT32);
        Ok(Null, b)
      else Ok(Null, a)
    else ScalarAt(s, q, mask % 64)
  }

  // ---- What may appear on the wire ----

  /** A scalar with its built-in type. `Absent` stands for Null and for the types (16 and up) whose
      encoding the decoder does not know: it reads no bytes for them. */
  datatype WireScalar =
    | Absent(t: nat)
    | Boolean(raw: byte)
    | Integer(t: nat, v: int)
    | FloatBits(bits: nat)
    | DoubleBits(bits: nat)
    | Str(chars: WireString)
    | Ticks(ticks: int)
    | Uuid(guid: seq<byte>)
    | Blob(chars: WireString)
  {
    function TypeId(): nat {
      match this
      case Absent(t) => t
      case Boolean(_) => T_BOOLEAN
      case Integer(t, _) => t
      case FloatBits(_) => T_FLOAT
      case DoubleBits(_) => T_DOUBLE
      case Str(_) => T_STRING
      case Ticks(_) => T_DATETIME
      case Uuid(_) => T_GUID
      case Blob(_) => T_BYTESTRING
    }
    predicate Valid() {
      match this
      case Absent(t) => t == 0 || 16 <= t < 64
      case Boolean(_) => true
      case Integer(t, v) =>
        IsInteger(t) && (if t % 2 == 0 then SignedRange(v, IntegerWidth(t)) else 0 <= v < Pow256(IntegerWidth(t)))
      case FloatBits(n) => n < Pow256(4)
      case DoubleBits(n) => n < Pow256(8)
      case Str(c) => c.ValidText()
      case Ticks(v) => SignedRange(v, 8)
      case Uuid(g) => |g| == 16
      case Blob(c) => c.Valid()
    }
    function Encode(): seq<byte>
      requires Valid()
    {
      match this
      case Absent(_) => []
      case Boolean(b) => [b]
      case Integer(t, v) => if t % 2 == 0 then IntBytes(v, IntegerWidth(t)) else LeBytes(v, IntegerWidth(t))
      case FloatBits(n) => LeBytes(n, 4)
      case DoubleBits(n) => LeBytes(n, 8)
      case Str(c) => c.Encode()
      case Ticks(v) => IntBytes(v, 8)
      case Uuid(g) => g
      case Blob(c) => c.Encode()
    }
    function Meaning(): PointValue
      requires Valid()
    {
      match this
      case Absent(_) => Null
      case Boolean(b) => Bool(b != 0)
      case Integer(t, v) => if t % 2 == 0 then Int(IntegerWidth(t), v) else UInt(IntegerWidth(t), v)
      case FloatBits(n) => Float(n)
      case DoubleBits(n) => Double(n)
      case Str(c) => if c.NullString? then Null else PointValue.Text(c.bytes)
      case Ticks(v) => if UnixMicros(v).None? then Null else DateTime(UnixMicros(v).value)
      case Uuid(g) => PointValue.Bytes(g)
      case Blob(c) => if c.NullString? then Null else PointValue.Bytes(c.bytes)
    }
  }

  lemma ScalarForward(s: seq<byte>, p: nat, w: WireScalar)
    requires w.Valid() && At(s, p, w.Encode())
    ensures ScalarAt(s, p, w.TypeId()) == Ok(w.Meaning(), p + |w.Encode()|)
  {
    hide At, IntBytes, LeBytes, UintAt, IntAt, BytesAt, ByteStringAt, StringAt, WireString.Encode;
    match w
    case Absent(_) =>
    case Boolean(b) => AtByte(s, p, b);
    case Integer(t, v) =>
      if t % 2 == 0 { IntForward(s, p, v, IntegerWidth(t)); } else { UintForward(s, p, v, IntegerWidth(t)); }
    case FloatBits(n) => UintForward(s, p, n, 4);
    case DoubleBits(n) => UintForward(s, p, n, 8);
    case Str(c) => ByteStringForward(s, p, c);
    case Ticks(v) => IntForward(s, p, v, 8);
    case Uuid(g) => BytesForward(s, p, g);
    case Blob(c) => ByteStringForward(s, p, c);
  }

  lemma IntegerBackward(s: seq<byte>, p: nat, t: nat) returns (w: WireScalar)
    requires IsInteger(t) && ScalarAt(s, p, t).Ok?
    ensures w.Valid() && w.TypeId() == t && At(s, p, w.Encode())
  {
    hide At, IntBytes, LeBytes, UintAt, IntAt, ByteStringAt;
    var k := IntegerWidth(t);
    if t % 2 == 0 {
      IntBackward(s, p, k);
      w := Integer(t, IntAt(s, p, k).value);
    } else {
      UintBackward(s, p, k);
      w := Integer(t, UintAt(s, p, k).value);
    }
  }

  lemma NonIntegerBackward(s: seq<byte>, p: nat, t: nat) returns (w: WireScalar)
    requires p <= |s| && t < 64 && !IsInteger(t) && ScalarAt(s, p, t).Ok?
    ensures w.Valid() && w.TypeId() == t && At(s, p, w.Encode())
  {
    hide At, IntBytes, LeBytes, UintAt, IntAt, ByteStringAt, WireString.Encode;
    if t == T_BOOLEAN {
      w := Boolean(s[p]);
      AtByte(s, p, s[p]);
    } else if t == T_FLOAT {
      UintBackward(s, p, 4);
      w := FloatBits(UintAt(s, p, 4).value);
    } else if t == T_DOUBLE {
      UintBackward(s, p, 8);
      w := DoubleBits(UintAt(s, p, 8).value);
    } else if t == T_STRING {
      var c := ByteStringBackward(s, p);
      w := Str(c);
    } else if t == T_DATETIME {
      IntBackward(s, p, 8);
      w := Ticks(IntAt(s, p, 8).value);
    } else if t == T_GUID {
      w := Uuid(s[p..p + 16]);
      AtHere(s, p, p + 16);
    } else if t == T_BYTESTRING {
      var c := ByteStringBackward(s, p);
      w := Blob(c);
    } else {
      w := Absent(t);
      AtNothing(s, p);
    }
  }

  lemma ScalarBackward(s: seq<byte>, p: nat, t: nat) returns (w: WireScalar)
    requires p <= |s| && t < 64 && ScalarAt(s, p, t).Ok?
    ensures w.Valid() && w.TypeId() == t && At(s, p, w.Encode())
    ensures ScalarAt(s, p, t) == Ok(w.Meaning(), p + |w.Encode()|)
  {
    hide At, ScalarAt, WireScalar.Valid, WireScalar.TypeId, WireScalar.Encode, WireScalar.Meaning;
    if IsInteger(t) {
      w := IntegerBackward(s, p, t);
    } else {
      w := NonIntegerBackward(s, p, t);
    }
    ScalarForward(s, p, w);
  }

  /** A length-prefixed array of scalars of one built-in type. */
  datatype WireArray = WireArray(count: WireCount, items: seq<WireScalar>) {
    predicate Valid(t: nat) {
      && count.Valid() && |items| == (if count.NullArray? then 0 else count.n)
      && forall i :: 0 <= i < |items| ==> items[i].Valid() && items[i].TypeId() == t
    }
    function Parts(t: nat): seq<seq<byte>>
      requires Valid(t)
    { seq(|items|, i requires 0 <= i < |items| => items[i].Encode()) }
    function Encode(t: nat): seq<byte>
      requires Valid(t)
    { count.Encode() + Concat(Parts(t)) }
  }

  lemma ArrayForward(s: seq<byte>, p: nat, t: nat, w: WireArray)
    requires w.Valid(t) && At(s, p, w.Encode(t))
    ensures ArrayAt(s, p, t) == Ok((), p + |w.Encode(t)|)
  {
    var es := w.Parts(t);
    AtSplit(s, p, w.count.Encode(), Concat(es));
    CountForward(s, p, w.count);
    var vs := seq(|es|, i requires 0 <= i < |es| => w.items[i].Meaning());
    forall i, q: nat | 0 <= i < |es| && At(s, q, es[i])
      ensures ScalarItem(s, t)(q) == Ok(vs[i], q + |es[i]|)
    {
      ScalarForward(s, q, w.items[i]);
    }
    ManyForward(s, ScalarItem(s, t), p + 4, es, vs);
  }

  lemma {:induction false} ScalarsBackward(s: seq<byte>, p: nat, t: nat, n: nat)
    returns (ws: seq<WireScalar>, es: seq<seq<byte>>)
    requires p <= |s| && t < 64 && Many(ScalarItem(s, t), p, n).Ok?
    ensures |ws| == |es| == n
    ensures forall i :: 0 <= i < n ==> ws[i].Valid() && ws[i].TypeId() == t && es[i] == ws[i].Encode()
    ensures At(s, p, Concat(es)) && Many(ScalarItem(s, t), p, n).next == p + |Concat(es)|
    decreases n
  {
    hide At, ScalarAt, WireScalar.Encode, WireScalar.Meaning;
    if n == 0 {
      ws, es := [], [];
      AtNothing(s, p);
    } else {
      var w := ScalarBackward(s, p, t);
      var q := p + |w.Encode()|;
      var ws', es' := ScalarsBackward(s, q, t, n - 1);
      ws, es := [w] + ws', [w.Encode()] + es';
      assert es[1..] == es';
      AtSplit(s, p, w.Encode(), Concat(es'));
    }
  }

  lemma ArrayBackward(s: seq<byte>, p: nat, t: nat) returns (w: WireArray)
    requires p <= |s| && t < 64 && ArrayAt(s, p, t).Ok?
    ensures w.Valid(t) && At(s, p, w.Encode(t)) && ArrayAt(s, p, t).next == p + |w.Encode(t)|
  {
    var c := CountBackward(s, p);
    var ws, es := ScalarsBackward(s, p + 4, t, if c.NullArray? then 0 else c.n);
    w := WireArray(c, ws);
    assert w.Parts(t) == es;
    AtSplit(s, p, c.Encode(), Concat(es));
  }

  /** A Variant: its mask byte carries the type, the array flag and the dimensions flag. The
      dimensions flag of a scalar is ignored. */
  datatype WireVariant =
    | Scalar(mask: byte, value: WireScalar)
    | Array(mask: byte, items: WireArray, dims: Option<WireArray>)
  {
    predicate Valid() {
      match this
      case Scalar(m, v) => !HasFlag(m, FLAG_IS_ARRAY) && v.Valid() && v.TypeId() == m % 64
      case Array(m, a, d) =>
        && HasFlag(m, FLAG_IS_ARRAY) && a.Valid(m % 64)
        && (d.Some? <==> HasFlag(m, FLAG_HAS_DIMENSIONS)) && (d.Some? ==> d.value.Valid(T_INT32))
    }
    function Encode(): seq<byte>
      requires Valid()
    {
      match this
      case Scalar(m, v) => [m] + v.Encode()
      case Array(m, a, d) => [m] + (a.Encode(m % 64) + if d.Some? then d.value.Encode(T_INT32) else [])
    }
    function Meaning(): PointValue
      requires Valid()
    { if Scalar? then value.Meaning() else Null }
  }

  lemma VariantForward(s: seq<byte>, p: nat, w: WireVariant)
    requires w.Valid() && At(s, p, w.Encode())
    ensures VariantAt(s, p) == Ok(w.Meaning(), p + |w.Encode()|)
  {
    hide At, ArrayAt, ScalarAt, WireArray.Encode, WireScalar.Encode, WireScalar.Meaning, WireArray.Valid;
    match w
    case Scalar(m, v) =>
      AtHead(s, p, m, v.Encode());
      ScalarForward(s, p + 1, v);
    case Array(m, a, d) =>
      var tail := if d.Some? then d.value.Encode(T_INT32) else [];
      AtHead(s, p, m, a.Encode(m % 64) + tail);
      AtSplit(s, p + 1, a.Encode(m % 64), tail);
      ArrayForward(s, p + 1, m % 64, a);
      if d.Some? { ArrayForward(s, p + 1 + |a.Encode(m % 64)|, T_INT32, d.value); }
  }

  lemma VariantBackward(s: seq<byte>, p: nat) returns (w: WireVariant)
    requires VariantAt(s, p).Ok?
    ensures w.Valid() && At(s, p, w.Encode())
    ensures VariantAt(s, p) == Ok(w.Meaning(), p + |w.Encode()|)
  {
    hide At, ArrayAt, ScalarAt, WireArray.Encode, WireScalar.Encode, WireScalar.Meaning, WireArray.Valid;
    var m := s[p];
    if HasFlag(m, FLAG_IS_ARRAY) {
      var a := ArrayBackward(s, p + 1, m % 64);
      var q := p + 1 + |a.Encode(m % 64)|;
      var d: Option<WireArray> := None;
      if HasFlag(m, FLAG_HAS_DIMENSIONS) {
        var dims := ArrayBackward(s, q, T_INT32);
        d := Some(dims);
      }
      w := Array(m, a, d);
      AtNothing(s, q);
      var tail := if d.Some? then d.value.Encode(T_INT32) else [];
      AtHead(s, p, m, a.Encode(m % 64) + tail);
      AtSplit(s, p + 1, a.Encode(m % 64), tail);
    } else {
      var v := ScalarBackward(s, p + 1, m % 64);
      w := Scalar(m, v);
      AtHead(s, p, m, v.Encode());
    }
    VariantForward(s, p, w);
  }

  // ---- The cursor's own reads ----

  method ReadScalar(r: Reader, t: nat) returns (res: Result<PointValue>)
    requires r.Valid()
    modifies r
    ensures r.Did(old(r.pos), ScalarAt(r.bytes, old(r.pos), t), res)
  {
    if t == T_BOOLEAN {
      var b :- r.ReadU8();
      return Success(Bool(b != 0));
    } else if IsInteger(t) {
      var k := IntegerWidth(t);
      if t % 2 == 0 {
        var v :- r.ReadInt(k);
        return Success(Int(k, v));
      }
      var n :- r.ReadUint(k);
      return Success(UInt(k, n));
    } else if t == T_FLOAT {
      var n :- r.ReadUint(4);
      return Success(Float(n));
    } else if t == T_DOUBLE {
      var n :- r.ReadUint(8);
      return Success(Double(n));
    } else if t == T_STRING {
      var b :- r.ReadString();
      return Success(if b.None? then Null else PointValue.Text(b.value));
    } else if t == T_DATETIME {
      var ticks :- r.ReadInt(8);
      var us := UnixMicros(ticks);
      return Success(if us.None? then Null else DateTime(us.value));
    } else if t == T_GUID {
      var b :- r.ReadBytes(16);
      return Success(PointValue.Bytes(b));
    } else if t == T_BYTESTRING {
      var b :- r.ReadByteString();
      return Success(if b.None? then Null else PointValue.Bytes(b.value));
    }
    return Success(Null);
  }

  method ConsumeArray(r: Reader, t: nat) returns (res: Result<()>)
    requires r.Valid()
    modifies r
    ensures r.Did(old(r.pos), ArrayAt(r.bytes, old(r.pos), t), res)
  {
    hide ScalarAt;
    var n :- r.ReadArrayLength();
    if n.None? { return Success(()); }
    ghost var start := r.pos;
    ghost var item := ScalarItem(r.bytes, t);
    ghost var vs := [];
    for i := 0 to n.value
      invariant start <= r.pos <= |r.bytes|
      invariant Many(item, start, n.value) == Prepend(vs, Many(item, r.pos, n.value - i))
    {
      ManyStep(vs, item, r.pos, n.value - i);
      var v :- ReadScalar(r, t);
      vs := vs + [v];
    }
    return Success(());
  }

  method ReadVariant(r: Reader) returns (res: Result<PointValue>)
    requires r.Valid()
    modifies r
    ensures r.Did(old(r.pos), VariantAt(r.bytes, old(r.pos)), res)
  {
    var mask :- r.ReadU8();
    if HasFlag(mask, FLAG_IS_ARRAY) {
      var _ :- ConsumeArray(r, mask % 64);
      if HasFlag(mask, FLAG_HAS_DIMENSIONS) {
        var _ :- ConsumeArray(r, T_INT32);
      }
      return Success(Null);
    }
    res := ReadScalar(r, mask % 64);
  }
}
