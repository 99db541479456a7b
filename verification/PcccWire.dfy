/** The PCCC wire format: requestor id, header, three-field address, typed values. */
module PcccWire {
  import opened Bytes
  import opened Bronze

  const CMD_PROTECTED_TYPED_LOGICAL: byte := 0x0F
  const FN_PROTECTED_TYPED_READ: byte := 0x68
  const FT_BIT: byte := 0x85
  const FT_TIMER: byte := 0x86
  const FT_COUNTER: byte := 0x87
  const FT_INTEGER: byte := 0x89
  const FT_FLOAT: byte := 0x8A

  /** A value read at an offset with the offset just after it, or too few bytes. */
  datatype Got<+T> = Got(value: T, next: nat) | Short {
    predicate IsFailure() { Short? }
    function PropagateFailure<U>(): Got<U>
      requires Short?
    { Short }
    function Extract(): (T, nat)
      requires Got?
    { (value, next) }
  }

  function U8At(b: seq<byte>, i: nat): (r: Got<byte>)
    ensures r.Got? ==> r.next <= |b|
  { if i < |b| then Got(b[i], i + 1) else Short }

  function U16At(b: seq<byte>, i: nat): (r: Got<nat>)
    ensures r.Got? ==> r.next <= |b| && r.value < 0x1_0000
  {
    Pow256Values();
    if i + 2 > |b| then Short else Got(LeValue(b[i..i + 2]), i + 2)
  }

  /** One byte, or 0xFF and a 16-bit value. */
  function FieldAt(b: seq<byte>, i: nat): (r: Got<nat>)
    ensures r.Got? ==> r.next <= |b| && r.value < 0x1_0000
  {
    var (x, j) :- U8At(b, i);
    if x == 0xFF then U16At(b, j) else Got(x, j)
  }

  datatype Address = Address(fileType: byte, fileNumber: byte, element: nat, sub: Option<byte>)

  function AddressAt(b: seq<byte>, i: nat): Got<Address> {
    var (file, i1) :- FieldAt(b, i);
    var (fileType, i2) :- U8At(b, i1);
    var (element, i3) :- FieldAt(b, i2);
    var (sub, i4) :- FieldAt(b, i3);
    Got(Address(fileType, file % 256, element, if sub == 0 then None else Some(sub % 256)), i4)
  }

  function AfterRequestor(b: seq<byte>): (r: Option<nat>)
    ensures r.Some? ==> r.value <= |b|
  {
    if b == [] then None else
    var len: int := b[0];
    if len == 0 then Some(1)
    else if len > |b| then None
    else Some(len)
  }

  datatype Pdu = Pdu(cmd: byte, sts: byte, tns: nat, body: seq<byte>)

  function HeaderAt(b: seq<byte>, i: nat): (r: Option<Pdu>)
    ensures r.Some? ==> r.value.tns < 0x1_0000
  {
    if i + 4 > |b| then None else
    var tns := U16At(b, i + 2).value;
    Some(Pdu(b[i], b[i + 1], tns, b[i + 4..]))
  }

  function PduOf(b: seq<byte>): (r: Option<Pdu>)
    ensures r.Some? ==> r.value.tns < 0x1_0000
  {
    match AfterRequestor(b)
    case None => None
    case Some(i) => HeaderAt(b, i)
  }

  // ======== What the readers accept ========

  datatype WireField = Plain(b: byte) | Extended(v: nat) {
    predicate Valid() { if Plain? then b != 0xFF else v < 0x1_0000 }
    function Value(): nat { if Plain? then b else v }
    function Wire(): seq<byte> { if Plain? then [b] else [0xFF] + LeBytes(v, 2) }
  }

  lemma FieldForward(b: seq<byte>, i: nat, w: WireField)
    requires w.Valid() && At(b, i, w.Wire())
    ensures FieldAt(b, i) == Got(w.Value(), i + |w.Wire()|)
  {
    if w.Extended? {
      AtHead(b, i, 0xFF, LeBytes(w.v, 2));
      Pow256Values();
      LeRoundTrip(w.v, 2);
    } else {
      AtByte(b, i, w.b);
    }
  }

  lemma FieldBackward(b: seq<byte>, i: nat) returns (w: WireField)
    requires FieldAt(b, i).Got?
    ensures w.Valid() && At(b, i, w.Wire()) && FieldAt(b, i) == Got(w.Value(), i + |w.Wire()|)
  {
    if b[i] == 0xFF {
      w := Extended(FieldAt(b, i).value);
      LeBytesOfValue(b[i + 1..i + 3]);
      AtHead(b, i, 0xFF, LeBytes(w.v, 2));
    } else {
      w := Plain(b[i]);
      AtByte(b, i, w.b);
    }
  }

  datatype WireAddress = WireAddress(file: WireField, fileType: byte, element: WireField, sub: WireField) {
    predicate Valid() { file.Valid() && element.Valid() && sub.Valid() }
    function Wire(): seq<byte> { file.Wire() + ([fileType] + (element.Wire() + sub.Wire())) }
    /** File number and sub-element keep only their low byte; sub-element zero means none. */
    function Meaning(): Address {
      Address(fileType, file.Value() % 256, element.Value(),
              if sub.Value() == 0 then None else Some(sub.Value() % 256))
    }
  }

  lemma AddressForward(b: seq<byte>, i: nat, w: WireAddress)
    requires w.Valid() && At(b, i, w.Wire())
    ensures AddressAt(b, i) == Got(w.Meaning(), i + |w.Wire()|)
  {
    hide FieldAt, WireField.Wire, WireField.Value;
    var e, s := w.element.Wire(), w.sub.Wire();
    AtSplit(b, i, w.file.Wire(), [w.fileType] + (e + s));
    var j := i + |w.file.Wire()|;
    AtHead(b, j, w.fileType, e + s);
    AtSplit(b, j + 1, e, s);
    FieldForward(b, i, w.file);
    FieldForward(b, j + 1, w.element);
    FieldForward(b, j + 1 + |e|, w.sub);
  }

  lemma AddressBackward(b: seq<byte>, i: nat) returns (w: WireAddress)
    requires AddressAt(b, i).Got?
    ensures w.Valid() && At(b, i, w.Wire()) && AddressAt(b, i) == Got(w.Meaning(), i + |w.Wire()|)
  {
    hide FieldAt, WireField.Wire, WireField.Value, WireField.Valid;
    var file := FieldBackward(b, i);
    var j := FieldAt(b, i).next;
    var element := FieldBackward(b, j + 1);
    var sub := FieldBackward(b, FieldAt(b, j + 1).next);
    w := WireAddress(file, b[j], element, sub);
    AtSplit(b, j + 1, element.Wire(), sub.Wire());
    AtHead(b, j, b[j], element.Wire() + sub.Wire());
    AtSplit(b, i, file.Wire(), [b[j]] + (element.Wire() + sub.Wire()));
    AddressForward(b, i, w);
  }

  /** The requestor id: its length byte counts itself, and zero stands for a bare length byte. */
  datatype Requestor = NoId | Id(id: seq<byte>) {
    predicate Valid() { Id? ==> |id| < 255 }
    function Wire(): seq<byte>
      requires Valid()
    { if NoId? then [0] else [|id| + 1] + id }
  }

  function PduWire(r: Requestor, p: Pdu): seq<byte>
    requires r.Valid()
  {
    r.Wire() + [p.cmd, p.sts] + LeBytes(p.tns, 2) + p.body
  }

  lemma PduForward(r: Requestor, p: Pdu)
    requires r.Valid() && p.tns < 0x1_0000
    ensures PduOf(PduWire(r, p)) == Some(p)
  {
    var b := PduWire(r, p);
    var i := |r.Wire()|;
    assert b[0] == r.Wire()[0];
    assert b[i] == p.cmd && b[i + 1] == p.sts && b[i + 2..i + 4] == LeBytes(p.tns, 2) && b[i + 4..] == p.body;
    Pow256Values();
    LeRoundTrip(p.tns, 2);
  }

  /** Whatever is accepted as a PDU is the encoding of one. */
  lemma PduBackward(b: seq<byte>) returns (r: Requestor)
    requires PduOf(b).Some?
    ensures r.Valid() && PduWire(r, PduOf(b).value) == b
  {
    var i := AfterRequestor(b).value;
    r := if b[0] == 0 then NoId else Id(b[1..i]);
    var p := PduOf(b).value;
    LeBytesOfValue(b[i + 2..i + 4]);
    assert r.Wire() == b[..i];
    assert b == b[..i] + b[i..i + 2] + b[i + 2..i + 4] + b[i + 4..];
    assert b[i..i + 2] == [p.cmd, p.sts];
  }

  // ======== Read requests ========

  datatype Pending = Pending(quantity: nat, start: Address)

  function ElementWidth(fileType: byte): nat {
    if fileType == FT_INTEGER || fileType == FT_BIT then 2
    else if fileType == FT_FLOAT then 4
    else if fileType == FT_TIMER || fileType == FT_COUNTER then 6
    else 0
  }

  function Quantity(byteSize: byte, fileType: byte): (q: nat)
    ensures 1 <= q <= 127
  {
    var w := ElementWidth(fileType);
    if w == 0 then 1 else
    var q: nat := byteSize / w;
    if q == 0 then 1 else q
  }

  /** What a request body asks to be remembered. */
  function ReadAsk(body: seq<byte>): Option<Pending> {
    if |body| < 2 || body[0] != FN_PROTECTED_TYPED_READ then None else
    match AddressAt(body, 2)
    case Short => None
    case Got(a, _) => Some(Pending(Quantity(body[1], a.fileType), a))
  }

  function AskBody(size: byte, w: WireAddress): seq<byte> { [FN_PROTECTED_TYPED_READ] + ([size] + w.Wire()) }

  lemma AskForward(size: byte, w: WireAddress, tail: seq<byte>)
    requires w.Valid()
    ensures ReadAsk(AskBody(size, w) + tail) == Some(Pending(Quantity(size, w.fileType), w.Meaning()))
  {
    hide AddressAt, WireAddress.Wire, WireAddress.Meaning, Quantity;
    var b := AskBody(size, w) + tail;
    assert [] + AskBody(size, w) + tail == b;
    AtAround([], AskBody(size, w), tail);
    AtHead(b, 0, FN_PROTECTED_TYPED_READ, [size] + w.Wire());
    AtHead(b, 1, size, w.Wire());
    AddressForward(b, 2, w);
    MeaningType(w);
  }

  lemma MeaningType(w: WireAddress)
    ensures w.Meaning().fileType == w.fileType
  {
  }

  lemma AskBackward(body: seq<byte>) returns (size: byte, w: WireAddress, tail: seq<byte>)
    requires ReadAsk(body).Some?
    ensures w.Valid() && body == AskBody(size, w) + tail
  {
    hide AddressAt, WireAddress.Wire, WireAddress.Meaning, Quantity;
    size := body[1];
    w := AddressBackward(body, 2);
    var n := 2 + |w.Wire()|;
    tail := body[n..];
    assert body == body[..2] + body[2..n] + tail;
  }

  // ======== Values ========

  function ValueWidth(fileType: byte): (w: nat)
    ensures w == 0 || w == 2 || w == 4
  {
    if fileType == FT_INTEGER || fileType == FT_BIT then 2 else if fileType == FT_FLOAT then 4 else 0
  }

  /** The value held by one element's bytes. */
  function ValueOf(fileType: byte, b: seq<byte>): PointValue
    requires |b| == ValueWidth(fileType) > 0
  {
    var n := LeValue(b);
    if fileType == FT_INTEGER then PointValue.Int(2, ToSigned(n, 2))
    else if fileType == FT_BIT then PointValue.UInt(2, n)
    else PointValue.Float(n)
  }

  method DecodeValue(b: seq<byte>, i: nat, fileType: byte) returns (r: Got<PointValue>)
    requires i <= |b|
    ensures var w := ValueWidth(fileType);
            r == if w == 0 || i + w > |b| then Short else Got(ValueOf(fileType, b[i..i + w]), i + w)
  {
    hide LeValue;
    if fileType == FT_INTEGER {
      if i + 2 > |b| { return Short; }
      r := Got(PointValue.Int(2, ToSigned(LeValue(b[i..i + 2]), 2)), i + 2);
    } else if fileType == FT_BIT {
      if i + 2 > |b| { return Short; }
      r := Got(PointValue.UInt(2, LeValue(b[i..i + 2])), i + 2);
    } else if fileType == FT_FLOAT {
      if i + 4 > |b| { return Short; }
      r := Got(PointValue.Float(LeValue(b[i..i + 4])), i + 4);
    } else {
      r := Short;
    }
  }
}
