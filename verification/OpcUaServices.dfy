/** Read service bodies: the two headers, DiagnosticInfo, ExtensionObject, ReadRequest, ReadResponse. */
module OpcUaServices {
  import opened Bytes
  import opened Collections
  import opened OpcUaReader
  import opened OpcUaNodeId
  import opened OpcUaDataValue

  const READ_REQUEST_TYPE_ID := 631
  const READ_RESPONSE_TYPE_ID := 634

  // ======== DiagnosticInfo (section 5.2.2.12), nested to any depth ========

  /** The four index fields, the text and the inner status of one level. */
  datatype DiagPresent = DiagPresent(symbolic: bool, uri: bool, locale: bool, text: bool, info: bool, status: bool)

  function DiagDecoded(mask: byte): DiagPresent {
    DiagPresent(HasFlag(mask, 0x01), HasFlag(mask, 0x02), HasFlag(mask, 0x04), HasFlag(mask, 0x08),
                HasFlag(mask, 0x10), HasFlag(mask, 0x20))
  }

  function OptByteStringAt(s: seq<byte>, p: nat, present: bool): (r: Parsed<()>)
    ensures r.Within(s, p)
  {
    if !present then Ok((), p) else
    var (_, q) :- ByteStringAt(s, p);
    Ok((), q)
  }

  function IndicesAt(s: seq<byte>, p: nat, f: DiagPresent): (r: Parsed<()>)
    ensures r.Within(s, p)
  {
    var (_, p1) :- OptIntAt(s, p, f.symbolic, 4);
    var (_, p2) :- OptIntAt(s, p1, f.uri, 4);
    var (_, p3) :- OptIntAt(s, p2, f.locale, 4);
    var (_, p4) :- OptIntAt(s, p3, f.text, 4);
    Ok((), p4)
  }

  function LevelAt(s: seq<byte>, p: nat, f: DiagPresent): (r: Parsed<()>)
    ensures r.Within(s, p)
  {
    var (_, p1) :- IndicesAt(s, p, f);
    var (_, p2) :- OptByteStringAt(s, p1, f.info);
    var (_, p3) :- OptUintAt(s, p2, f.status, 4);
    Ok((), p3)
  }

  function DiagAt(s: seq<byte>, p: nat): (r: Parsed<()>)
    ensures r.Within(s, p)
    ensures r.Ok? ==> p < r.next
    decreases |s| - p
  {
    var (mask, q) :- U8At(s, p);
    var (_, e) :- LevelAt(s, q, DiagDecoded(mask));
    if HasFlag(mask, 0x40) then DiagAt(s, e) else Ok((), e)
  }

  datatype WireLevel = WireLevel(symbolic: Option<int>, uri: Option<int>, locale: Option<int>, text: Option<int>,
                                 info: Option<WireString>, status: Option<nat>)
  {
    predicate Valid(f: DiagPresent) {
      && OptIntFits(symbolic, f.symbolic, 4) && OptIntFits(uri, f.uri, 4)
      && OptIntFits(locale, f.locale, 4) && OptIntFits(text, f.text, 4)
      && (info.Some? <==> f.info) && (info.Some? ==> info.value.Valid())
      && OptUintFits(status, f.status, 4)
    }
    function Indices(f: DiagPresent): seq<byte>
      requires Valid(f)
    { OptIntBytes(symbolic, 4) + (OptIntBytes(uri, 4) + (OptIntBytes(locale, 4) + OptIntBytes(text, 4))) }
    function InfoBytes(f: DiagPresent): seq<byte>
      requires Valid(f)
    { if info.Some? then info.value.Encode() else [] }
    function Encode(f: DiagPresent): seq<byte>
      requires Valid(f)
    { Indices(f) + (InfoBytes(f) + OptUintBytes(status, 4)) }
  }

  datatype WireDiag = WireDiag(mask: byte, level: WireLevel, inner: Option<WireDiag>) {
    predicate Valid() {
      && level.Valid(DiagDecoded(mask))
      && (inner.Some? <==> HasFlag(mask, 0x40)) && (inner.Some? ==> inner.value.Valid())
    }
    function InnerBytes(): seq<byte>
      requires Valid()
      decreases this, 0
    { if inner.Some? then inner.value.Encode() else [] }
    function Encode(): (e: seq<byte>)
      requires Valid()
      ensures e != []
      decreases this, 1
    { [mask] + (level.Encode(DiagDecoded(mask)) + InnerBytes()) }
  }

  lemma IndicesForward(s: seq<byte>, p: nat, w: WireLevel, f: DiagPresent)
    requires w.Valid(f) && At(s, p, w.Indices(f))
    ensures IndicesAt(s, p, f) == Ok((), p + |w.Indices(f)|)
  {
    hide At, OptIntAt, OptIntBytes, SignedRange;
    var a, b := OptIntBytes(w.symbolic, 4), OptIntBytes(w.uri, 4);
    var c, d := OptIntBytes(w.locale, 4), OptIntBytes(w.text, 4);
    AtSplit(s, p, a, b + (c + d));
    AtSplit(s, p + |a|, b, c + d);
    AtSplit(s, p + |a| + |b|, c, d);
    OptIntForward(s, p, w.symbolic, f.symbolic, 4);
    OptIntForward(s, p + |a|, w.uri, f.uri, 4);
    OptIntForward(s, p + |a| + |b|, w.locale, f.locale, 4);
    OptIntForward(s, p + |a| + |b| + |c|, w.text, f.text, 4);
  }

  lemma LevelForward(s: seq<byte>, p: nat, w: WireLevel, f: DiagPresent)
    requires w.Valid(f) && At(s, p, w.Encode(f))
    ensures LevelAt(s, p, f) == Ok((), p + |w.Encode(f)|)
  {
    hide At, IndicesAt, ByteStringAt, OptUintAt, WireLevel.Indices, WireString.Encode, OptUintBytes;
    var i, b, c := w.Indices(f), w.InfoBytes(f), OptUintBytes(w.status, 4);
    AtSplit(s, p, i, b + c);
    AtSplit(s, p + |i|, b, c);
    IndicesForward(s, p, w, f);
    if w.info.Some? { ByteStringForward(s, p + |i|, w.info.value); }
    OptUintForward(s, p + |i| + |b|, w.status, f.status, 4);
  }

  lemma {:induction false} DiagForward(s: seq<byte>, p: nat, w: WireDiag)
    requires w.Valid() && At(s, p, w.Encode())
    ensures DiagAt(s, p) == Ok((), p + |w.Encode()|)
    decreases w
  {
    hide At, LevelAt, WireLevel.Encode, DiagDecoded;
    var f := DiagDecoded(w.mask);
    var l := w.level.Encode(f);
    AtHead(s, p, w.mask, l + w.InnerBytes());
    AtSplit(s, p + 1, l, w.InnerBytes());
    LevelForward(s, p + 1, w.level, f);
    if w.inner.Some? { DiagForward(s, p + 1 + |l|, w.inner.value); }
  }

  lemma IndicesBackward(s: seq<byte>, p: nat, f: DiagPresent)
    returns (a: Option<int>, b: Option<int>, c: Option<int>, d: Option<int>)
    requires p <= |s| && IndicesAt(s, p, f).Ok?
    ensures OptIntFits(a, f.symbolic, 4) && OptIntFits(b, f.uri, 4)
    ensures OptIntFits(c, f.locale, 4) && OptIntFits(d, f.text, 4)
    ensures var e := OptIntBytes(a, 4) + (OptIntBytes(b, 4) + (OptIntBytes(c, 4) + OptIntBytes(d, 4)));
            At(s, p, e) && IndicesAt(s, p, f).next == p + |e|
  {
    hide At, OptIntAt, OptIntBytes;
    OptIntBackward(s, p, f.symbolic, 4);
    var r1 := OptIntAt(s, p, f.symbolic, 4);
    OptIntBackward(s, r1.next, f.uri, 4);
    var r2 := OptIntAt(s, r1.next, f.uri, 4);
    OptIntBackward(s, r2.next, f.locale, 4);
    var r3 := OptIntAt(s, r2.next, f.locale, 4);
    OptIntBackward(s, r3.next, f.text, 4);
    a, b, c, d := r1.value, r2.value, r3.value, OptIntAt(s, r3.next, f.text, 4).value;
    AtSplit(s, r2.next, OptIntBytes(c, 4), OptIntBytes(d, 4));
    AtSplit(s, r1.next, OptIntBytes(b, 4), OptIntBytes(c, 4) + OptIntBytes(d, 4));
    AtSplit(s, p, OptIntBytes(a, 4), OptIntBytes(b, 4) + (OptIntBytes(c, 4) + OptIntBytes(d, 4)));
  }

  lemma LevelBackward(s: seq<byte>, p: nat, f: DiagPresent) returns (w: WireLevel)
    requires p <= |s| && LevelAt(s, p, f).Ok?
    ensures w.Valid(f) && At(s, p, w.Encode(f)) && LevelAt(s, p, f) == Ok((), p + |w.Encode(f)|)
  {
    hide At, IndicesAt, ByteStringAt, OptUintAt, WireString.Encode, OptUintBytes, OptIntBytes;
    var a, b, c, d := IndicesBackward(s, p, f);
    var p1 := IndicesAt(s, p, f).next;
    var info: Option<WireString> := None;
    if f.info {
      var i := ByteStringBackward(s, p1);
      info := Some(i);
    }
    AtNothing(s, p1);
    var p2 := OptByteStringAt(s, p1, f.info).next;
    OptUintBackward(s, p2, f.status, 4);
    var status := OptUintAt(s, p2, f.status, 4).value;
    w := WireLevel(a, b, c, d, info, status);
    assert At(s, p, w.Encode(f)) by {
      AtSplit(s, p1, w.InfoBytes(f), OptUintBytes(status, 4));
      AtSplit(s, p, w.Indices(f), w.InfoBytes(f) + OptUintBytes(status, 4));
    }
    LevelForward(s, p, w, f);
  }

  lemma {:induction false} DiagBackward(s: seq<byte>, p: nat) returns (w: WireDiag)
    requires DiagAt(s, p).Ok?
    ensures w.Valid() && At(s, p, w.Encode()) && DiagAt(s, p) == Ok((), p + |w.Encode()|)
    decreases |s| - p
  {
    hide At, LevelAt, WireLevel.Encode, DiagDecoded;
    var m := s[p];
    var l := LevelBackward(s, p + 1, DiagDecoded(m));
    var lb := l.Encode(DiagDecoded(m));
    var inner: Option<WireDiag> := None;
    if HasFlag(m, 0x40) {
      var i := DiagBackward(s, p + 1 + |lb|);
      inner := Some(i);
    }
    w := WireDiag(m, l, inner);
    AtNothing(s, p + 1 + |lb|);
    AtSplit(s, p + 1, lb, w.InnerBytes());
    AtHead(s, p, m, lb + w.InnerBytes());
  }

  method SkipIndices(r: Reader, f: DiagPresent) returns (res: Result<()>)
    requires r.Valid()
    modifies r
    ensures r.Did(old(r.pos), IndicesAt(r.bytes, old(r.pos), f), res)
  {
    hide OptIntAt;
    var _ :- ReadOptInt(r, f.symbolic, 4);
    var _ :- ReadOptInt(r, f.uri, 4);
    var _ :- ReadOptInt(r, f.locale, 4);
    var _ :- ReadOptInt(r, f.text, 4);
    return Success(());
  }

  /** The mask-gated fields of one DiagnosticInfo, without its inner one. */
  method SkipLevel(r: Reader, f: DiagPresent) returns (res: Result<()>)
    requires r.Valid()
    modifies r
    ensures r.Did(old(r.pos), LevelAt(r.bytes, old(r.pos), f), res)
  {
    hide IndicesAt, OptUintAt, ByteStringAt;
    var _ :- SkipIndices(r, f);
    if f.info {
      var _ :- r.ReadByteString();
    }
    var _ :- ReadOptUint(r, f.status, 4);
    return Success(());
  }

  method SkipDiagnosticInfo(r: Reader) returns (res: Result<()>)
    requires r.Valid()
    modifies r
    ensures r.Did(old(r.pos), DiagAt(r.bytes, old(r.pos)), res)
    decreases |r.bytes| - r.pos
  {
    hide LevelAt, DiagDecoded;
    var mask :- r.ReadU8();
    var _ :- SkipLevel(r, DiagDecoded(mask));
    if HasFlag(mask, 0x40) {
      res := SkipDiagnosticInfo(r);
      return;
    }
    return Success(());
  }

  // ======== ExtensionObject (section 5.2.2.15) and String[] ========

  function ExtensionAt(s: seq<byte>, p: nat): (r: Parsed<()>)
    ensures r.Within(s, p)
  {
    var (_, p1) :- NodeIdAt(s, p);
    var (encoding, p2) :- U8At(s, p1);
    if encoding == 0x00 then Ok((), p2)
    else if encoding == 0x01 || encoding == 0x02 then
      var (_, p3) :- ByteStringAt(s, p2);
      Ok((), p3)
    else Err(InvalidLength)
  }

  datatype WireExtension = WireExtension(typeId: WireNodeId, encoding: byte, body: Option<WireString>) {
    predicate Valid() {
      && typeId.Valid() && encoding <= 2
      && (body.Some? <==> encoding != 0) && (body.Some? ==> body.value.Valid())
    }
    function BodyBytes(): seq<byte>
      requires Valid()
    { if body.Some? then body.value.Encode() else [] }
    function Encode(): seq<byte>
      requires Valid()
    { typeId.Encode() + ([encoding] + BodyBytes()) }
  }

  lemma ExtensionForward(s: seq<byte>, p: nat, w: WireExtension)
    requires w.Valid() && At(s, p, w.Encode())
    ensures ExtensionAt(s, p) == Ok((), p + |w.Encode()|)
  {
    hide At, NodeIdAt, ByteStringAt, WireNodeId.Encode, WireString.Encode;
    var p1 := p + |w.typeId.Encode()|;
    AtSplit(s, p, w.typeId.Encode(), [w.encoding] + w.BodyBytes());
    AtHead(s, p1, w.encoding, w.BodyBytes());
    NodeIdForward(s, p, w.typeId);
    if w.body.Some? { ByteStringForward(s, p1 + 1, w.body.value); }
  }

  lemma ExtensionBackward(s: seq<byte>, p: nat) returns (w: WireExtension)
    requires ExtensionAt(s, p).Ok?
    ensures w.Valid() && At(s, p, w.Encode()) && ExtensionAt(s, p) == Ok((), p + |w.Encode()|)
  {
    hide At, NodeIdAt, ByteStringAt, WireNodeId.Encode, WireString.Encode;
    var node := NodeIdBackward(s, p);
    var p1 := NodeIdAt(s, p).next;
    var body: Option<WireString> := None;
    if s[p1] != 0 {
      var b := ByteStringBackward(s, p1 + 1);
      body := Some(b);
    }
    w := WireExtension(node, s[p1], body);
    AtNothing(s, p1 + 1);
    AtHead(s, p1, w.encoding, w.BodyBytes());
    AtSplit(s, p, w.typeId.Encode(), [w.encoding] + w.BodyBytes());
  }

  method SkipExtensionObject(r: Reader) returns (res: Result<()>)
    requires r.Valid()
    modifies r
    ensures r.Did(old(r.pos), ExtensionAt(r.bytes, old(r.pos)), res)
  {
    var _ :- ReadNodeId(r);
    var encoding :- r.ReadU8();
    if encoding == 0x01 || encoding == 0x02 {
      var _ :- r.ReadByteString();
    } else if encoding != 0x00 {
      return Failure(InvalidLength);
    }
    return Success(());
  }

  function ByteStringItem(s: seq<byte>): nat -> Parsed<Option<seq<byte>>> {
    (q: nat) => ByteStringAt(s, q)
  }

  function StringArrayAt(s: seq<byte>, p: nat): (r: Parsed<()>)
    ensures r.Within(s, p)
  {
    var (n, q) :- ArrayLengthAt(s, p);
    if n.None? then Ok((), q) else
    ManyWithin(s, ByteStringItem(s), q, n.value);
    var (_, e) :- Many(ByteStringItem(s), q, n.value);
    Ok((), e)
  }

  datatype WireStrings = WireStrings(count: WireCount, items: seq<WireString>) {
    predicate Valid() {
      && count.Valid() && |items| == (if count.NullArray? then 0 else count.n)
      && forall i :: 0 <= i < |items| ==> items[i].Valid()
    }
    function Parts(): seq<seq<byte>>
      requires Valid()
    { seq(|items|, i requires 0 <= i < |items| => items[i].Encode()) }
    function Encode(): seq<byte>
      requires Valid()
    { count.Encode() + Concat(Parts()) }
  }

  lemma StringArrayForward(s: seq<byte>, p: nat, w: WireStrings)
    requires w.Valid() && At(s, p, w.Encode())
    ensures StringArrayAt(s, p) == Ok((), p + |w.Encode()|)
  {
    var es := w.Parts();
    AtSplit(s, p, w.count.Encode(), Concat(es));
    CountForward(s, p, w.count);
    var vs := seq(|es|, i requires 0 <= i < |es| => w.items[i].Meaning());
    forall i, q: nat | 0 <= i < |es| && At(s, q, es[i])
      ensures ByteStringItem(s)(q) == Ok(vs[i], q + |es[i]|)
    {
      ByteStringForward(s, q, w.items[i]);
    }
    ManyForward(s, ByteStringItem(s), p + 4, es, vs);
  }

  lemma {:induction false} StringsBackward(s: seq<byte>, p: nat, n: nat)
    returns (ws: seq<WireString>, es: seq<seq<byte>>)
    requires p <= |s| && Many(ByteStringItem(s), p, n).Ok?
    ensures |ws| == |es| == n
    ensures forall i :: 0 <= i < n ==> ws[i].Valid() && es[i] == ws[i].Encode()
    ensures At(s, p, Concat(es)) && Many(ByteStringItem(s), p, n).next == p + |Concat(es)|
    decreases n
  {
    hide At, ByteStringAt, WireString.Encode;
    if n == 0 {
      ws, es := [], [];
      AtNothing(s, p);
    } else {
      var w := ByteStringBackward(s, p);
      var ws', es' := StringsBackward(s, p + |w.Encode()|, n - 1);
      ws, es := [w] + ws', [w.Encode()] + es';
      assert es[1..] == es';
      AtSplit(s, p, w.Encode(), Concat(es'));
    }
  }

  lemma StringArrayBackward(s: seq<byte>, p: nat) returns (w: WireStrings)
    requires p <= |s| && StringArrayAt(s, p).Ok?
    ensures w.Valid() && At(s, p, w.Encode()) && StringArrayAt(s, p) == Ok((), p + |w.Encode()|)
  {
    var c := CountBackward(s, p);
    var ws, es := StringsBackward(s, p + 4, if c.NullArray? then 0 else c.n);
    w := WireStrings(c, ws);
    assert w.Parts() == es;
    AtSplit(s, p, c.Encode(), Concat(es));
  }

  method SkipStringArray(r: Reader) returns (res: Result<()>)
    requires r.Valid()
    modifies r
    ensures r.Did(old(r.pos), StringArrayAt(r.bytes, old(r.pos)), res)
  {
    hide ByteStringAt;
    var n :- r.ReadArrayLength();
    if n.None? { return Success(()); }
    ghost var start := r.pos;
    ghost var item := ByteStringItem(r.bytes);
    ghost var vs := [];
    for i := 0 to n.value
      invariant start <= r.pos <= |r.bytes|
      invariant Many(item, start, n.value) == Prepend(vs, Many(item, r.pos, n.value - i))
    {
      ManyStep(vs, item, r.pos, n.value - i);
      var v :- r.ReadByteString();
      vs := vs + [v];
    }
    return Success(());
  }

  // ======== Headers ========

  function ServiceTypeAt(s: seq<byte>, p: nat): (r: Parsed<nat>)
    ensures r.Within(s, p)
  {
    var (node, q) :- NodeIdAt(s, p);
    if node.identifier.Numeric? && node.namespaceIndex == 0 then Ok(node.identifier.n, q) else Err(InvalidLength)
  }

  method ReadServiceTypeId(r: Reader) returns (res: Result<nat>)
    requires r.Valid()
    modifies r
    ensures r.Did(old(r.pos), ServiceTypeAt(r.bytes, old(r.pos)), res)
  {
    var node :- ReadNodeId(r);
    if node.identifier.Numeric? && node.namespaceIndex == 0 { return Success(node.identifier.n); }
    return Failure(InvalidLength);
  }

  /** Timestamp, request handle and return-diagnostics of a request; timestamp, handle and service
      result of a response. Both are an Int64 followed by two UInt32. */
  function TripleAt(s: seq<byte>, p: nat): (r: Parsed<(nat, nat)>)
    ensures r.Within(s, p)
  {
    var (_, p1) :- IntAt(s, p, 8);
    var (a, p2) :- UintAt(s, p1, 4);
    var (b, p3) :- UintAt(s, p2, 4);
    Ok((a, b), p3)
  }

  datatype WireTriple = WireTriple(stamp: int, first: nat, second: nat) {
    predicate Valid() { SignedRange(stamp, 8) && first < Pow256(4) && second < Pow256(4) }
    function Encode(): (e: seq<byte>)
      requires Valid()
      ensures |e| == 16
    { IntBytes(stamp, 8) + (LeBytes(first, 4) + LeBytes(second, 4)) }
  }

  lemma TripleForward(s: seq<byte>, p: nat, w: WireTriple)
    requires w.Valid() && At(s, p, w.Encode())
    ensures TripleAt(s, p) == Ok((w.first, w.second), p + 16)
  {
    AtSplit(s, p, IntBytes(w.stamp, 8), LeBytes(w.first, 4) + LeBytes(w.second, 4));
    AtSplit(s, p + 8, LeBytes(w.first, 4), LeBytes(w.second, 4));
    IntForward(s, p, w.stamp, 8);
    UintForward(s, p + 8, w.first, 4);
    UintForward(s, p + 12, w.second, 4);
  }

  lemma TripleBackward(s: seq<byte>, p: nat) returns (w: WireTriple)
    requires TripleAt(s, p).Ok?
    ensures w.Valid() && At(s, p, w.Encode()) && TripleAt(s, p) == Ok((w.first, w.second), p + 16)
  {
    IntBackward(s, p, 8);
    UintBackward(s, p + 8, 4);
    UintBackward(s, p + 12, 4);
    w := WireTriple(IntAt(s, p, 8).value, UintAt(s, p + 8, 4).value, UintAt(s, p + 12, 4).value);
    AtSplit(s, p + 8, LeBytes(w.first, 4), LeBytes(w.second, 4));
    AtSplit(s, p, IntBytes(w.stamp, 8), LeBytes(w.first, 4) + LeBytes(w.second, 4));
  }

  function RequestHeaderAt(s: seq<byte>, p: nat): (r: Parsed<nat>)
    ensures r.Within(s, p)
  {
    var (_, p1) :- NodeIdAt(s, p);
    var (t, p2) :- TripleAt(s, p1);
    var (_, p3) :- StringAt(s, p2);
    var (_, p4) :- UintAt(s, p3, 4);
    var (_, p5) :- ExtensionAt(s, p4);
    Ok(t.0, p5)
  }

  datatype WireRequestHeader = WireRequestHeader(auth: WireNodeId, triple: WireTriple, audit: WireString,
                                                 timeout: nat, extra: WireExtension)
  {
    predicate Valid() {
      auth.Valid() && triple.Valid() && audit.ValidText() && timeout < Pow256(4) && extra.Valid()
    }
    function Encode(): seq<byte>
      requires Valid()
    { auth.Encode() + (triple.Encode() + (audit.Encode() + (LeBytes(timeout, 4) + extra.Encode()))) }
  }

  lemma RequestHeaderForward(s: seq<byte>, p: nat, w: WireRequestHeader)
    requires w.Valid() && At(s, p, w.Encode())
    ensures RequestHeaderAt(s, p) == Ok(w.triple.first, p + |w.Encode()|)
  {
    hide At, NodeIdAt, TripleAt, ByteStringAt, UintAt, ExtensionAt, WireNodeId.Encode, WireTriple.Encode,
         WireString.Encode, WireExtension.Encode, StringAt;
    var a, t, d, o, x := w.auth.Encode(), w.triple.Encode(), w.audit.Encode(), LeBytes(w.timeout, 4), w.extra.Encode();
    AtSplit(s, p, a, t + (d + (o + x)));
    AtSplit(s, p + |a|, t, d + (o + x));
    AtSplit(s, p + |a| + 16, d, o + x);
    AtSplit(s, p + |a| + 16 + |d|, o, x);
    NodeIdForward(s, p, w.auth);
    TripleForward(s, p + |a|, w.triple);
    ByteStringForward(s, p + |a| + 16, w.audit);
    UintForward(s, p + |a| + 16 + |d|, w.timeout, 4);
    ExtensionForward(s, p + |a| + 16 + |d| + 4, w.extra);
  }

  lemma RequestHeaderBackward(s: seq<byte>, p: nat) returns (w: WireRequestHeader)
    requires RequestHeaderAt(s, p).Ok?
    ensures w.Valid() && At(s, p, w.Encode())
    ensures RequestHeaderAt(s, p) == Ok(w.triple.first, p + |w.Encode()|)
  {
    hide At, NodeIdAt, TripleAt, ByteStringAt, UintAt, ExtensionAt, WireNodeId.Encode, WireTriple.Encode,
         WireString.Encode, WireExtension.Encode;
    var auth := NodeIdBackward(s, p);
    var p1 := NodeIdAt(s, p).next;
    var triple := TripleBackward(s, p1);
    var audit := ByteStringBackward(s, p1 + 16);
    var p3 := StringAt(s, p1 + 16).next;
    UintBackward(s, p3, 4);
    var extra := ExtensionBackward(s, p3 + 4);
    w := WireRequestHeader(auth, triple, audit, UintAt(s, p3, 4).value, extra);
    assert At(s, p, w.Encode()) by {
      var d, o, x := audit.Encode(), LeBytes(w.timeout, 4), extra.Encode();
      AtSplit(s, p3, o, x);
      AtSplit(s, p1 + 16, d, o + x);
      AtSplit(s, p1, triple.Encode(), d + (o + x));
      AtSplit(s, p, auth.Encode(), triple.Encode() + (d + (o + x)));
    }
    RequestHeaderForward(s, p, w);
  }

  method SkipRequestHeader(r: Reader) returns (res: Result<nat>)
    requires r.Valid()
    modifies r
    ensures r.Did(old(r.pos), RequestHeaderAt(r.bytes, old(r.pos)), res)
  {
    var _ :- ReadNodeId(r);
    var _ :- r.ReadInt(8);
    var handle :- r.ReadUint(4);
    var _ :- r.ReadUint(4);
    var _ :- r.ReadString();
    var _ :- r.ReadUint(4);
    var _ :- SkipExtensionObject(r);
    return Success(handle);
  }

  function ResponseHeaderAt(s: seq<byte>, p: nat): (r: Parsed<(nat, nat)>)
    ensures r.Within(s, p)
  {
    var (t, p1) :- TripleAt(s, p);
    var (_, p2) :- DiagAt(s, p1);
    var (_, p3) :- StringArrayAt(s, p2);
    var (_, p4) :- ExtensionAt(s, p3);
    Ok(t, p4)
  }

  datatype WireResponseHeader = WireResponseHeader(triple: WireTriple, diag: WireDiag, strings: WireStrings,
                                                   extra: WireExtension)
  {
    predicate Valid() { triple.Valid() && diag.Valid() && strings.Valid() && extra.Valid() }
    function Encode(): seq<byte>
      requires Valid()
    { triple.Encode() + (diag.Encode() + (strings.Encode() + extra.Encode())) }
  }

  lemma ResponseHeaderForward(s: seq<byte>, p: nat, w: WireResponseHeader)
    requires w.Valid() && At(s, p, w.Encode())
    ensures ResponseHeaderAt(s, p) == Ok((w.triple.first, w.triple.second), p + |w.Encode()|)
  {
    hide At, TripleAt, DiagAt, StringArrayAt, ExtensionAt, WireTriple.Encode, WireDiag.Encode, WireStrings.Encode,
         WireExtension.Encode;
    var d, t, x := w.diag.Encode(), w.strings.Encode(), w.extra.Encode();
    AtSplit(s, p, w.triple.Encode(), d + (t + x));
    AtSplit(s, p + 16, d, t + x);
    AtSplit(s, p + 16 + |d|, t, x);
    TripleForward(s, p, w.triple);
    DiagForward(s, p + 16, w.diag);
    StringArrayForward(s, p + 16 + |d|, w.strings);
    ExtensionForward(s, p + 16 + |d| + |t|, w.extra);
  }

  lemma ResponseHeaderBackward(s: seq<byte>, p: nat) returns (w: WireResponseHeader)
    requires ResponseHeaderAt(s, p).Ok?
    ensures w.Valid() && At(s, p, w.Encode())
    ensures ResponseHeaderAt(s, p) == Ok((w.triple.first, w.triple.second), p + |w.Encode()|)
  {
    hide At, TripleAt, DiagAt, StringArrayAt, ExtensionAt, WireTriple.Encode, WireDiag.Encode, WireStrings.Encode,
         WireExtension.Encode;
    var triple := TripleBackward(s, p);
    var diag := DiagBackward(s, p + 16);
    var p2 := DiagAt(s, p + 16).next;
    var strings := StringArrayBackward(s, p2);
    var p3 := StringArrayAt(s, p2).next;
    var extra := ExtensionBackward(s, p3);
    w := WireResponseHeader(triple, diag, strings, extra);
    assert At(s, p, w.Encode()) by {
      var d, t, x := diag.Encode(), strings.Encode(), extra.Encode();
      AtSplit(s, p2, t, x);
      AtSplit(s, p + 16, d, t + x);
      AtSplit(s, p, triple.Encode(), d + (t + x));
    }
    ResponseHeaderForward(s, p, w);
  }

  method SkipResponseHeader(r: Reader) returns (res: Result<(nat, nat)>)
    requires r.Valid()
    modifies r
    ensures r.Did(old(r.pos), ResponseHeaderAt(r.bytes, old(r.pos)), res)
  {
    var _ :- r.ReadInt(8);
    var handle :- r.ReadUint(4);
    var result :- r.ReadUint(4);
    var _ :- SkipDiagnosticInfo(r);
    var _ :- SkipStringArray(r);
    var _ :- SkipExtensionObject(r);
    return Success((handle, result));
  }

  // ======== ReadRequest ========

  function ReadItemAt(s: seq<byte>, p: nat): (r: Parsed<NodeId>)
    ensures r.Within(s, p)
  {
    var (node, p1) :- NodeIdAt(s, p);
    var (_, p2) :- UintAt(s, p1, 4);
    var (_, p3) :- StringAt(s, p2);
    var (_, p4) :- UintAt(s, p3, 2);
    var (_, p5) :- StringAt(s, p4);
    Ok(node, p5)
  }

  function ReadItem(s: seq<byte>): nat -> Parsed<NodeId> {
    (q: nat) => ReadItemAt(s, q)
  }

  datatype WireReadItem = WireReadItem(node: WireNodeId, attribute: nat, range: WireString, qualifier: nat,
                                       name: WireString)
  {
    predicate Valid() {
      node.Valid() && attribute < Pow256(4) && range.ValidText() && qualifier < Pow256(2) && name.ValidText()
    }
    function Encode(): seq<byte>
      requires Valid()
    { node.Encode() + (LeBytes(attribute, 4) + (range.Encode() + (LeBytes(qualifier, 2) + name.Encode()))) }
  }

  lemma ReadItemForward(s: seq<byte>, p: nat, w: WireReadItem)
    requires w.Valid() && At(s, p, w.Encode())
    ensures ReadItemAt(s, p) == Ok(w.node.Meaning(), p + |w.Encode()|)
  {
    hide At, NodeIdAt, UintAt, ByteStringAt, StringAt, LeBytes, WireNodeId.Encode, WireString.Encode,
         WireNodeId.Meaning;
    var n, a, g := w.node.Encode(), LeBytes(w.attribute, 4), w.range.Encode();
    var q, m := LeBytes(w.qualifier, 2), w.name.Encode();
    AtSplit(s, p, n, a + (g + (q + m)));
    AtSplit(s, p + |n|, a, g + (q + m));
    AtSplit(s, p + |n| + 4, g, q + m);
    AtSplit(s, p + |n| + 4 + |g|, q, m);
    NodeIdForward(s, p, w.node);
    UintForward(s, p + |n|, w.attribute, 4);
    ByteStringForward(s, p + |n| + 4, w.range);
    UintForward(s, p + |n| + 4 + |g|, w.qualifier, 2);
    ByteStringForward(s, p + |n| + 4 + |g| + 2, w.name);
  }

  lemma ReadItemBackward(s: seq<byte>, p: nat) returns (w: WireReadItem)
    requires ReadItemAt(s, p).Ok?
    ensures w.Valid() && At(s, p, w.Encode()) && ReadItemAt(s, p) == Ok(w.node.Meaning(), p + |w.Encode()|)
  {
    hide At, NodeIdAt, UintAt, ByteStringAt, LeBytes, WireNodeId.Encode, WireString.Encode, WireNodeId.Meaning;
    var node := NodeIdBackward(s, p);
    var p1 := NodeIdAt(s, p).next;
    UintBackward(s, p1, 4);
    var range := ByteStringBackward(s, p1 + 4);
    var p3 := StringAt(s, p1 + 4).next;
    UintBackward(s, p3, 2);
    var name := ByteStringBackward(s, p3 + 2);
    w := WireReadItem(node, UintAt(s, p1, 4).value, range, UintAt(s, p3, 2).value, name);
    assert At(s, p, w.Encode()) by {
      var a, g, q, m := LeBytes(w.attribute, 4), range.Encode(), LeBytes(w.qualifier, 2), name.Encode();
      AtSplit(s, p3, q, m);
      AtSplit(s, p1 + 4, g, q + m);
      AtSplit(s, p1, a, g + (q + m));
      AtSplit(s, p, node.Encode(), a + (g + (q + m)));
    }
    ReadItemForward(s, p, w);
  }

  function NodesAt(s: seq<byte>, p: nat): (r: Parsed<seq<NodeId>>)
    ensures r.Within(s, p)
  {
    var (n, q) :- ArrayLengthAt(s, p);
    if n.None? then Ok([], q) else
    ManyWithin(s, ReadItem(s), q, n.value);
    Many(ReadItem(s), q, n.value)
  }

  datatype WireReadItems = WireReadItems(count: WireCount, items: seq<WireReadItem>) {
    predicate Valid() {
      && count.Valid() && |items| == (if count.NullArray? then 0 else count.n)
      && forall i :: 0 <= i < |items| ==> items[i].Valid()
    }
    function Parts(): seq<seq<byte>>
      requires Valid()
    { seq(|items|, i requires 0 <= i < |items| => items[i].Encode()) }
    function Encode(): seq<byte>
      requires Valid()
    { count.Encode() + Concat(Parts()) }
    /** The node identifiers read, in order. */
    function Meaning(): (ns: seq<NodeId>)
    { seq(|items|, i requires 0 <= i < |items| => items[i].node.Meaning()) }
  }

  lemma NodesForward(s: seq<byte>, p: nat, w: WireReadItems)
    requires w.Valid() && At(s, p, w.Encode())
    ensures NodesAt(s, p) == Ok(w.Meaning(), p + |w.Encode()|)
  {
    hide At, ReadItemAt, ArrayLengthAt, WireReadItem.Encode, WireCount.Encode;
    var es := w.Parts();
    AtSplit(s, p, w.count.Encode(), Concat(es));
    CountForward(s, p, w.count);
    forall i, q: nat | 0 <= i < |es| && At(s, q, es[i])
      ensures ReadItem(s)(q) == Ok(w.Meaning()[i], q + |es[i]|)
    {
      ReadItemForward(s, q, w.items[i]);
    }
    ManyForward(s, ReadItem(s), p + 4, es, w.Meaning());
  }

  lemma {:induction false} ReadItemsBackward(s: seq<byte>, p: nat, n: nat)
    returns (ws: seq<WireReadItem>, es: seq<seq<byte>>)
    requires p <= |s| && Many(ReadItem(s), p, n).Ok?
    ensures |ws| == |es| == n
    ensures forall i :: 0 <= i < n ==> ws[i].Valid() && es[i] == ws[i].Encode()
    ensures At(s, p, Concat(es))
    decreases n
  {
    hide At, ReadItemAt, WireReadItem.Encode;
    if n == 0 {
      ws, es := [], [];
      AtNothing(s, p);
    } else {
      var w := ReadItemBackward(s, p);
      var ws', es' := ReadItemsBackward(s, p + |w.Encode()|, n - 1);
      ws, es := [w] + ws', [w.Encode()] + es';
      assert es[1..] == es';
      AtSplit(s, p, w.Encode(), Concat(es'));
    }
  }

  lemma NodesBackward(s: seq<byte>, p: nat) returns (w: WireReadItems)
    requires p <= |s| && NodesAt(s, p).Ok?
    ensures w.Valid() && At(s, p, w.Encode()) && NodesAt(s, p) == Ok(w.Meaning(), p + |w.Encode()|)
  {
    hide At, ReadItemAt, ArrayLengthAt, WireReadItem.Encode, WireCount.Encode;
    var c := CountBackward(s, p);
    var ws, es := ReadItemsBackward(s, p + 4, if c.NullArray? then 0 else c.n);
    w := WireReadItems(c, ws);
    assert w.Parts() == es;
    AtSplit(s, p, c.Encode(), Concat(es));
    NodesForward(s, p, w);
  }

  function RequestBodyAt(s: seq<byte>, p: nat): (r: Parsed<seq<NodeId>>)
    ensures r.Within(s, p)
  {
    var (_, p1) :- RequestHeaderAt(s, p);
    var (_, p2) :- UintAt(s, p1, 8);
    var (_, p3) :- UintAt(s, p2, 4);
    NodesAt(s, p3)
  }

  datatype WireRequest = WireRequest(header: WireRequestHeader, maxAge: nat, timestamps: nat, nodes: WireReadItems) {
    predicate Valid() { header.Valid() && maxAge < Pow256(8) && timestamps < Pow256(4) && nodes.Valid() }
    function Encode(): seq<byte>
      requires Valid()
    { header.Encode() + (LeBytes(maxAge, 8) + (LeBytes(timestamps, 4) + nodes.Encode())) }
  }

  lemma RequestBodyForward(s: seq<byte>, p: nat, w: WireRequest)
    requires w.Valid() && At(s, p, w.Encode())
    ensures RequestBodyAt(s, p) == Ok(w.nodes.Meaning(), p + |w.Encode()|)
  {
    hide At, RequestHeaderAt, UintAt, NodesAt, LeBytes, WireRequestHeader.Encode, WireReadItems.Encode,
         WireReadItems.Meaning;
    var h, a, t, n := w.header.Encode(), LeBytes(w.maxAge, 8), LeBytes(w.timestamps, 4), w.nodes.Encode();
    AtSplit(s, p, h, a + (t + n));
    AtSplit(s, p + |h|, a, t + n);
    AtSplit(s, p + |h| + 8, t, n);
    RequestHeaderForward(s, p, w.header);
    UintForward(s, p + |h|, w.maxAge, 8);
    UintForward(s, p + |h| + 8, w.timestamps, 4);
    NodesForward(s, p + |h| + 12, w.nodes);
  }

  lemma RequestBodyBackward(s: seq<byte>, p: nat) returns (w: WireRequest)
    requires RequestBodyAt(s, p).Ok?
    ensures w.Valid() && At(s, p, w.Encode()) && RequestBodyAt(s, p) == Ok(w.nodes.Meaning(), p + |w.Encode()|)
  {
    hide At, RequestHeaderAt, UintAt, NodesAt, LeBytes, WireRequestHeader.Encode, WireReadItems.Encode,
         WireReadItems.Meaning;
    var header := RequestHeaderBackward(s, p);
    var p1 := RequestHeaderAt(s, p).next;
    UintBackward(s, p1, 8);
    UintBackward(s, p1 + 8, 4);
    var nodes := NodesBackward(s, p1 + 12);
    w := WireRequest(header, UintAt(s, p1, 8).value, UintAt(s, p1 + 8, 4).value, nodes);
    assert At(s, p, w.Encode()) by {
      var a, t, n := LeBytes(w.maxAge, 8), LeBytes(w.timestamps, 4), nodes.Encode();
      AtSplit(s, p1 + 8, t, n);
      AtSplit(s, p1, a, t + n);
      AtSplit(s, p, header.Encode(), a + (t + n));
    }
    RequestBodyForward(s, p, w);
  }

  method ReadReadItem(r: Reader) returns (res: Result<NodeId>)
    requires r.Valid()
    modifies r
    ensures r.Did(old(r.pos), ReadItemAt(r.bytes, old(r.pos)), res)
  {
    hide NodeIdAt, UintAt, StringAt;
    var node :- ReadNodeId(r);
    var _ :- r.ReadUint(4);
    var _ :- r.ReadString();
    var _ :- r.ReadUint(2);
    var _ :- r.ReadString();
    return Success(node);
  }

  method ReadNodes(r: Reader) returns (res: Result<seq<NodeId>>)
    requires r.Valid()
    modifies r
    ensures r.Did(old(r.pos), NodesAt(r.bytes, old(r.pos)), res)
  {
    hide ReadItemAt, ArrayLengthAt;
    var n :- r.ReadArrayLength();
    if n.None? { return Success([]); }
    ghost var start := r.pos;
    ghost var item := ReadItem(r.bytes);
    var nodes := [];
    for i := 0 to n.value
      invariant start <= r.pos <= |r.bytes|
      invariant Many(item, start, n.value) == Prepend(nodes, Many(item, r.pos, n.value - i))
    {
      ManyStep(nodes, item, r.pos, n.value - i);
      var node :- ReadReadItem(r);
      nodes := nodes + [node];
    }
    return Success(nodes);
  }

  method ParseReadRequestBody(r: Reader) returns (res: Result<seq<NodeId>>)
    requires r.Valid()
    modifies r
    ensures r.Did(old(r.pos), RequestBodyAt(r.bytes, old(r.pos)), res)
  {
    hide RequestHeaderAt, UintAt, NodesAt;
    var _ :- SkipRequestHeader(r);
    var _ :- r.ReadUint(8);
    var _ :- r.ReadUint(4);
    res := ReadNodes(r);
  }

  // ======== ReadResponse ========

  datatype ReadResponse = ReadResponse(requestHandle: nat, serviceResult: nat, results: seq<DataValue>)

  function DataValueItem(s: seq<byte>): nat -> Parsed<DataValue> {
    (q: nat) => DataValueAt(s, q)
  }

  function ResultsAt(s: seq<byte>, p: nat): (r: Parsed<seq<DataValue>>)
    ensures r.Within(s, p)
  {
    var (n, q) :- ArrayLengthAt(s, p);
    if n.None? then Ok([], q) else
    ManyWithin(s, DataValueItem(s), q, n.value);
    Many(DataValueItem(s), q, n.value)
  }

  function ResponseBodyAt(s: seq<byte>, p: nat): (r: Parsed<ReadResponse>)
    ensures r.Within(s, p)
  {
    var (h, p1) :- ResponseHeaderAt(s, p);
    var (results, p2) :- ResultsAt(s, p1);
    Ok(ReadResponse(h.0, h.1, results), p2)
  }

  datatype WireResults = WireResults(count: WireCount, items: seq<WireDataValue>) {
    predicate Valid() {
      && count.Valid() && |items| == (if count.NullArray? then 0 else count.n)
      && forall i :: 0 <= i < |items| ==> items[i].Valid()
    }
    function Parts(): seq<seq<byte>>
      requires Valid()
    { seq(|items|, i requires 0 <= i < |items| => items[i].Encode()) }
    function Encode(): seq<byte>
      requires Valid()
    { count.Encode() + Concat(Parts()) }
    function Meaning(): (vs: seq<DataValue>)
      requires Valid()
    { seq(|items|, i requires 0 <= i < |items| => items[i].Meaning()) }
  }

  lemma ResultsForward(s: seq<byte>, p: nat, w: WireResults)
    requires w.Valid() && At(s, p, w.Encode())
    ensures ResultsAt(s, p) == Ok(w.Meaning(), p + |w.Encode()|)
  {
    hide At, DataValueAt, ArrayLengthAt, WireDataValue.Encode, WireCount.Encode, WireDataValue.Valid,
         WireDataValue.Meaning;
    var es := w.Parts();
    AtSplit(s, p, w.count.Encode(), Concat(es));
    CountForward(s, p, w.count);
    forall i, q: nat | 0 <= i < |es| && At(s, q, es[i])
      ensures DataValueItem(s)(q) == Ok(w.Meaning()[i], q + |es[i]|)
    {
      DataValueForward(s, q, w.items[i]);
    }
    ManyForward(s, DataValueItem(s), p + 4, es, w.Meaning());
  }

  lemma {:induction false} DataValuesBackward(s: seq<byte>, p: nat, n: nat)
    returns (ws: seq<WireDataValue>, es: seq<seq<byte>>)
    requires p <= |s| && Many(DataValueItem(s), p, n).Ok?
    ensures |ws| == |es| == n
    ensures forall i :: 0 <= i < n ==> ws[i].Valid() && es[i] == ws[i].Encode()
    ensures At(s, p, Concat(es))
    decreases n
  {
    hide At, DataValueAt, WireDataValue.Encode, WireDataValue.Valid, WireDataValue.Meaning;
    if n == 0 {
      ws, es := [], [];
      AtNothing(s, p);
    } else {
      var w := DataValueBackward(s, p);
      var ws', es' := DataValuesBackward(s, p + |w.Encode()|, n - 1);
      ws, es := [w] + ws', [w.Encode()] + es';
      assert es[1..] == es';
      AtSplit(s, p, w.Encode(), Concat(es'));
    }
  }

  lemma ResultsBackward(s: seq<byte>, p: nat) returns (w: WireResults)
    requires p <= |s| && ResultsAt(s, p).Ok?
    ensures w.Valid() && At(s, p, w.Encode()) && ResultsAt(s, p) == Ok(w.Meaning(), p + |w.Encode()|)
  {
    hide At, DataValueAt, ArrayLengthAt, WireDataValue.Encode, WireCount.Encode, WireDataValue.Valid,
         WireDataValue.Meaning;
    var c := CountBackward(s, p);
    var ws, es := DataValuesBackward(s, p + 4, if c.NullArray? then 0 else c.n);
    w := WireResults(c, ws);
    assert w.Parts() == es;
    AtSplit(s, p, c.Encode(), Concat(es));
    ResultsForward(s, p, w);
  }

  /** The trailing diagnosticInfos array is never read, so it belongs to the bytes that follow. */
  datatype WireResponse = WireResponse(header: WireResponseHeader, results: WireResults) {
    predicate Valid() { header.Valid() && results.Valid() }
    function Encode(): seq<byte>
      requires Valid()
    { header.Encode() + results.Encode() }
    function Meaning(): ReadResponse
      requires Valid()
    { ReadResponse(header.triple.first, header.triple.second, results.Meaning()) }
  }

  lemma ResponseBodyForward(s: seq<byte>, p: nat, w: WireResponse)
    requires w.Valid() && At(s, p, w.Encode())
    ensures ResponseBodyAt(s, p) == Ok(w.Meaning(), p + |w.Encode()|)
  {
    hide At, ResponseHeaderAt, ResultsAt, WireResponseHeader.Encode, WireResults.Encode, WireResults.Meaning,
         WireResults.Valid;
    AtSplit(s, p, w.header.Encode(), w.results.Encode());
    ResponseHeaderForward(s, p, w.header);
    ResultsForward(s, p + |w.header.Encode()|, w.results);
  }

  lemma ResponseBodyBackward(s: seq<byte>, p: nat) returns (w: WireResponse)
    requires ResponseBodyAt(s, p).Ok?
    ensures w.Valid() && At(s, p, w.Encode()) && ResponseBodyAt(s, p) == Ok(w.Meaning(), p + |w.Encode()|)
  {
    hide ResponseHeaderAt, ResultsAt, WireResponseHeader.Encode, WireResults.Encode, WireResults.Meaning,
         WireResults.Valid;
    var header := ResponseHeaderBackward(s, p);
    var results := ResultsBackward(s, p + |header.Encode()|);
    w := WireResponse(header, results);
    AtSplit(s, p, header.Encode(), results.Encode());
  }

  method ParseReadResponseBody(r: Reader) returns (res: Result<ReadResponse>)
    requires r.Valid()
    modifies r
    ensures r.Did(old(r.pos), ResponseBodyAt(r.bytes, old(r.pos)), res)
  {
    hide ResponseHeaderAt, DataValueAt, ArrayLengthAt;
    var h :- SkipResponseHeader(r);
    var n :- r.ReadArrayLength();
    if n.None? { return Success(ReadResponse(h.0, h.1, [])); }
    ghost var start := r.pos;
    ghost var item := DataValueItem(r.bytes);
    var results := [];
    for i := 0 to n.value
      invariant start <= r.pos <= |r.bytes|
      invariant Many(item, start, n.value) == Prepend(results, Many(item, r.pos, n.value - i))
    {
      ManyStep(results, item, r.pos, n.value - i);
      var v :- ReadDataValue(r);
      results := results + [v];
    }
    return Success(ReadResponse(h.0, h.1, results));
  }
}
