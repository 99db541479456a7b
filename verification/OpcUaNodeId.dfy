/** NodeId and ExpandedNodeId (sections 5.2.2.9 and 5.2.2.10 of OPC 10000-6). */
module OpcUaNodeId {
  import opened Bytes
  import opened OpcUaReader

  const ENC_TWO_BYTE := 0x00
  const ENC_FOUR_BYTE := 0x01
  const ENC_NUMERIC := 0x02
  const ENC_STRING := 0x03
  const ENC_GUID := 0x04
  const ENC_OPAQUE := 0x05
  const FLAG_NAMESPACE_URI := 0x80
  const FLAG_SERVER_INDEX := 0x40

  /** `StringRaw` keeps string identifiers whose bytes are not UTF-8. */
  datatype Identifier = Numeric(n: nat) | String(text: seq<byte>) | StringRaw(raw: seq<byte>)
                      | Guid(guid: seq<byte>) | Opaque(bytes: seq<byte>)

  datatype NodeId = NodeId(namespaceIndex: nat, identifier: Identifier)

  function TextIdentifier(b: seq<byte>): Identifier {
    if Utf8(b) then String(b) else StringRaw(b)
  }

  // ---- Decoding at an offset ----

  function NodeBodyAt(s: seq<byte>, p: nat, enc: nat): (r: Parsed<NodeId>)
    ensures r.Within(s, p)
  {
    if enc == ENC_TWO_BYTE then
      var (id, q) :- U8At(s, p);
      Ok(NodeId(0, Numeric(id)), q)
    else if enc == ENC_FOUR_BYTE then
      var (ns, q) :- U8At(s, p);
      var (id, e) :- UintAt(s, q, 2);
      Ok(NodeId(ns, Numeric(id)), e)
    else if enc == ENC_NUMERIC then
      var (ns, q) :- UintAt(s, p, 2);
      var (id, e) :- UintAt(s, q, 4);
      Ok(NodeId(ns, Numeric(id)), e)
    else if enc == ENC_STRING then
      var (ns, q) :- UintAt(s, p, 2);
      var (b, e) :- ByteStringAt(s, q);
      Ok(NodeId(ns, if b.None? then String([]) else TextIdentifier(b.value)), e)
    else if enc == ENC_GUID then
      var (ns, q) :- UintAt(s, p, 2);
      var (b, e) :- BytesAt(s, q, 16);
      Ok(NodeId(ns, Guid(b)), e)
    else if enc == ENC_OPAQUE then
      var (ns, q) :- UintAt(s, p, 2);
      var (b, e) :- ByteStringAt(s, q);
      Ok(NodeId(ns, Opaque(if b.None? then [] else b.value)), e)
    else Err(InvalidLength)
  }

  function NodeIdAt(s: seq<byte>, p: nat): (r: Parsed<NodeId>)
    ensures r.Within(s, p)
    ensures r.Ok? ==> p < |s|
  {
    var (enc, q) :- U8At(s, p);
    NodeBodyAt(s, q, enc % 64)
  }

  function ExpandedNodeIdAt(s: seq<byte>, p: nat): (r: Parsed<NodeId>)
    ensures r.Within(s, p)
  {
    var (inner, a) :- NodeIdAt(s, p);
    var (_, b) :- UriAt(s, a, s[p]);
    var (_, c) :- ServerAt(s, b, s[p]);
    Ok(inner, c)
  }

  function UriAt(s: seq<byte>, p: nat, enc: byte): (r: Parsed<Option<seq<byte>>>)
    ensures r.Within(s, p)
  { if HasFlag(enc, FLAG_NAMESPACE_URI) then ByteStringAt(s, p) else Ok(None, p) }

  function ServerAt(s: seq<byte>, p: nat, enc: byte): (r: Parsed<nat>)
    ensures r.Within(s, p)
  { if HasFlag(enc, FLAG_SERVER_INDEX) then UintAt(s, p, 4) else Ok(0, p) }

  // ---- What may appear on the wire ----

  datatype WireBody =
    | TwoByte(id8: byte)
    | FourByte(ns8: byte, id: nat)
    | Full(ns: nat, id: nat)
    | Text(ns: nat, chars: WireString)
    | GuidBody(ns: nat, guid: seq<byte>)
    | OpaqueBody(ns: nat, chars: WireString)
  {
    predicate Valid() {
      match this
      case TwoByte(_) => true
      case FourByte(_, id) => id < Pow256(2)
      case Full(ns, id) => ns < Pow256(2) && id < Pow256(4)
      case Text(ns, c) => ns < Pow256(2) && c.Valid()
      case GuidBody(ns, g) => ns < Pow256(2) && |g| == 16
      case OpaqueBody(ns, c) => ns < Pow256(2) && c.Valid()
    }
    function Kind(): nat {
      match this
      case TwoByte(_) => ENC_TWO_BYTE
      case FourByte(_, _) => ENC_FOUR_BYTE
      case Full(_, _) => ENC_NUMERIC
      case Text(_, _) => ENC_STRING
      case GuidBody(_, _) => ENC_GUID
      case OpaqueBody(_, _) => ENC_OPAQUE
    }
    function Encode(): seq<byte>
      requires Valid()
    {
      match this
      case TwoByte(id) => [id]
      case FourByte(ns, id) => [ns] + LeBytes(id, 2)
      case Full(ns, id) => LeBytes(ns, 2) + LeBytes(id, 4)
      case Text(ns, c) => LeBytes(ns, 2) + c.Encode()
      case GuidBody(ns, g) => LeBytes(ns, 2) + g
      case OpaqueBody(ns, c) => LeBytes(ns, 2) + c.Encode()
    }
    function Meaning(): NodeId {
      match this
      case TwoByte(id) => NodeId(0, Numeric(id))
      case FourByte(ns, id) => NodeId(ns, Numeric(id))
      case Full(ns, id) => NodeId(ns, Numeric(id))
      case Text(ns, NullString(_)) => NodeId(ns, String([]))
      case Text(ns, Chars(b)) => NodeId(ns, TextIdentifier(b))
      case GuidBody(ns, g) => NodeId(ns, Guid(g))
      case OpaqueBody(ns, NullString(_)) => NodeId(ns, Opaque([]))
      case OpaqueBody(ns, Chars(b)) => NodeId(ns, Opaque(b))
    }
  }

  /** The encoding byte selects the body with its low six bits; a NodeId ignores the other two. */
  datatype WireNodeId = WireNodeId(enc: byte, body: WireBody) {
    predicate Valid() { body.Valid() && enc % 64 == body.Kind() }
    function Encode(): (e: seq<byte>)
      requires Valid()
      ensures |e| >= 1
    { [enc] + body.Encode() }
    function Meaning(): NodeId { body.Meaning() }
  }

  lemma NodeBodyForward(s: seq<byte>, p: nat, w: WireBody)
    requires w.Valid() && At(s, p, w.Encode())
    ensures NodeBodyAt(s, p, w.Kind()) == Ok(w.Meaning(), p + |w.Encode()|)
  {
    hide At, LeBytes, UintAt, BytesAt, ByteStringAt, WireString.Encode;
    match w
    case TwoByte(id) => AtByte(s, p, id);
    case FourByte(ns, id) =>
      AtHead(s, p, ns, LeBytes(id, 2));
      UintForward(s, p + 1, id, 2);
    case Full(ns, id) =>
      AtSplit(s, p, LeBytes(ns, 2), LeBytes(id, 4));
      UintForward(s, p, ns, 2);
      UintForward(s, p + 2, id, 4);
    case Text(ns, c) =>
      AtSplit(s, p, LeBytes(ns, 2), c.Encode());
      UintForward(s, p, ns, 2);
      ByteStringForward(s, p + 2, c);
    case GuidBody(ns, g) =>
      AtSplit(s, p, LeBytes(ns, 2), g);
      UintForward(s, p, ns, 2);
      BytesForward(s, p + 2, g);
    case OpaqueBody(ns, c) =>
      AtSplit(s, p, LeBytes(ns, 2), c.Encode());
      UintForward(s, p, ns, 2);
      ByteStringForward(s, p + 2, c);
  }

  lemma NumericBackward(s: seq<byte>, p: nat, enc: nat) returns (w: WireBody)
    requires enc <= ENC_NUMERIC && NodeBodyAt(s, p, enc).Ok?
    ensures w.Valid() && w.Kind() == enc && At(s, p, w.Encode())
  {
    hide At, LeBytes, UintAt, ByteStringAt;
    if enc == ENC_TWO_BYTE {
      w := TwoByte(s[p]);
      AtByte(s, p, s[p]);
    } else if enc == ENC_FOUR_BYTE {
      UintBackward(s, p + 1, 2);
      w := FourByte(s[p], UintAt(s, p + 1, 2).value);
      AtHead(s, p, w.ns8, LeBytes(w.id, 2));
    } else {
      UintBackward(s, p, 2);
      UintBackward(s, p + 2, 4);
      w := Full(UintAt(s, p, 2).value, UintAt(s, p + 2, 4).value);
      AtSplit(s, p, LeBytes(w.ns, 2), LeBytes(w.id, 4));
    }
  }

  lemma NamedBackward(s: seq<byte>, p: nat, enc: nat) returns (w: WireBody)
    requires enc > ENC_NUMERIC && NodeBodyAt(s, p, enc).Ok?
    ensures w.Valid() && w.Kind() == enc && At(s, p, w.Encode())
  {
    hide At, LeBytes, UintAt, ByteStringAt, WireString.Encode;
    UintBackward(s, p, 2);
    var ns := UintAt(s, p, 2).value;
    if enc == ENC_GUID {
      w := GuidBody(ns, s[p + 2..p + 18]);
      AtHere(s, p + 2, p + 18);
      AtSplit(s, p, LeBytes(ns, 2), w.guid);
    } else {
      var c := ByteStringBackward(s, p + 2);
      w := if enc == ENC_STRING then Text(ns, c) else OpaqueBody(ns, c);
      AtSplit(s, p, LeBytes(ns, 2), c.Encode());
    }
  }

  lemma NodeBodyBackward(s: seq<byte>, p: nat, enc: nat) returns (w: WireBody)
    requires NodeBodyAt(s, p, enc).Ok?
    ensures w.Valid() && w.Kind() == enc && At(s, p, w.Encode())
    ensures NodeBodyAt(s, p, enc) == Ok(w.Meaning(), p + |w.Encode()|)
  {
    hide At, NodeBodyAt, WireBody.Valid, WireBody.Kind, WireBody.Encode, WireBody.Meaning;
    if enc <= ENC_NUMERIC {
      w := NumericBackward(s, p, enc);
    } else {
      w := NamedBackward(s, p, enc);
    }
    NodeBodyForward(s, p, w);
  }

  lemma NodeIdForward(s: seq<byte>, p: nat, w: WireNodeId)
    requires w.Valid() && At(s, p, w.Encode())
    ensures NodeIdAt(s, p) == Ok(w.Meaning(), p + |w.Encode()|)
  {
    AtHead(s, p, w.enc, w.body.Encode());
    NodeBodyForward(s, p + 1, w.body);
  }

  lemma NodeIdBackward(s: seq<byte>, p: nat) returns (w: WireNodeId)
    requires NodeIdAt(s, p).Ok?
    ensures w.Valid() && At(s, p, w.Encode())
    ensures NodeIdAt(s, p) == Ok(w.Meaning(), p + |w.Encode()|)
  {
    var body := NodeBodyBackward(s, p + 1, s[p] % 64);
    w := WireNodeId(s[p], body);
    AtHead(s, p, w.enc, body.Encode());
  }

  /** The two tails of an ExpandedNodeId, present exactly when their flag is set. */
  datatype WireExpanded = WireExpanded(node: WireNodeId, uri: Option<WireString>, server: Option<nat>) {
    predicate Valid() {
      && node.Valid()
      && (uri.Some? <==> HasFlag(node.enc, FLAG_NAMESPACE_URI)) && (uri.Some? ==> uri.value.Valid())
      && (server.Some? <==> HasFlag(node.enc, FLAG_SERVER_INDEX)) && (server.Some? ==> server.value < Pow256(4))
    }
    function UriBytes(): seq<byte>
      requires Valid()
    { if uri.Some? then uri.value.Encode() else [] }
    function ServerBytes(): seq<byte>
      requires Valid()
    { if server.Some? then LeBytes(server.value, 4) else [] }
    function Encode(): seq<byte>
      requires Valid()
    { node.Encode() + (UriBytes() + ServerBytes()) }
  }

  lemma TailsForward(s: seq<byte>, a: nat, w: WireExpanded)
    requires w.Valid() && At(s, a, w.UriBytes() + w.ServerBytes())
    ensures var r := UriAt(s, a, w.node.enc);
            r.Ok? && ServerAt(s, r.next, w.node.enc).Ok?
            && ServerAt(s, r.next, w.node.enc).next == a + |w.UriBytes() + w.ServerBytes()|
  {
    AtSplit(s, a, w.UriBytes(), w.ServerBytes());
    if w.uri.Some? { ByteStringForward(s, a, w.uri.value); }
    if w.server.Some? { UintForward(s, a + |w.UriBytes()|, w.server.value, 4); }
  }

  lemma ExpandedForward(s: seq<byte>, p: nat, w: WireExpanded)
    requires w.Valid() && At(s, p, w.Encode())
    ensures ExpandedNodeIdAt(s, p) == Ok(w.node.Meaning(), p + |w.Encode()|)
  {
    hide At, NodeIdAt, WireBody.Encode, WireNodeId.Meaning, UriAt, ServerAt, WireExpanded.UriBytes,
         WireExpanded.ServerBytes;
    var tails := w.UriBytes() + w.ServerBytes();
    AtSplit(s, p, w.node.Encode(), tails);
    NodeIdForward(s, p, w.node);
    AtHead(s, p, w.node.enc, w.node.body.Encode());
    TailsForward(s, p + |w.node.Encode()|, w);
  }

  lemma TailsBackward(s: seq<byte>, a: nat, node: WireNodeId) returns (w: WireExpanded)
    requires node.Valid() && a <= |s| && UriAt(s, a, node.enc).Ok?
    requires ServerAt(s, UriAt(s, a, node.enc).next, node.enc).Ok?
    ensures w.Valid() && w.node == node && At(s, a, w.UriBytes() + w.ServerBytes())
  {
    hide At, LeBytes, ByteStringAt, UintAt, WireString.Encode, WireNodeId.Valid;
    var uri: Option<WireString>, server: Option<nat> := None, None;
    if HasFlag(node.enc, FLAG_NAMESPACE_URI) {
      var c := ByteStringBackward(s, a);
      uri := Some(c);
    } else {
      AtNothing(s, a);
    }
    var b := UriAt(s, a, node.enc).next;
    if HasFlag(node.enc, FLAG_SERVER_INDEX) {
      UintBackward(s, b, 4);
      server := Some(UintAt(s, b, 4).value);
    } else {
      AtNothing(s, b);
    }
    w := WireExpanded(node, uri, server);
    AtSplit(s, a, w.UriBytes(), w.ServerBytes());
  }

  lemma ExpandedBackward(s: seq<byte>, p: nat) returns (w: WireExpanded)
    requires ExpandedNodeIdAt(s, p).Ok?
    ensures w.Valid() && At(s, p, w.Encode())
    ensures ExpandedNodeIdAt(s, p) == Ok(w.node.Meaning(), p + |w.Encode()|)
  {
    hide At, NodeIdAt, WireBody.Encode, WireNodeId.Meaning, UriAt, ServerAt, WireExpanded.UriBytes,
         WireExpanded.ServerBytes;
    var node := NodeIdBackward(s, p);
    AtHead(s, p, node.enc, node.body.Encode());
    var a := p + |node.Encode()|;
    w := TailsBackward(s, a, node);
    AtSplit(s, p, node.Encode(), w.UriBytes() + w.ServerBytes());
    ExpandedForward(s, p, w);
  }

  // ---- The cursor's own reads ----

  method DecodeNodeId(r: Reader, enc: nat) returns (res: Result<NodeId>)
    requires r.Valid()
    modifies r
    ensures r.Did(old(r.pos), NodeBodyAt(r.bytes, old(r.pos), enc), res)
  {
    if enc == ENC_TWO_BYTE {
      var id :- r.ReadU8();
      return Success(NodeId(0, Numeric(id)));
    } else if enc == ENC_FOUR_BYTE {
      var ns :- r.ReadU8();
      var id :- r.ReadUint(2);
      return Success(NodeId(ns, Numeric(id)));
    } else if enc == ENC_NUMERIC {
      var ns :- r.ReadUint(2);
      var id :- r.ReadUint(4);
      return Success(NodeId(ns, Numeric(id)));
    } else if enc == ENC_STRING {
      var ns :- r.ReadUint(2);
      var len :- r.ReadInt(4);
      if len < 0 { return Success(NodeId(ns, String([]))); }
      var b :- r.ReadBytes(len);
      return Success(NodeId(ns, TextIdentifier(b)));
    } else if enc == ENC_GUID {
      var ns :- r.ReadUint(2);
      var b :- r.ReadBytes(16);
      return Success(NodeId(ns, Guid(b)));
    } else if enc == ENC_OPAQUE {
      var ns :- r.ReadUint(2);
      var b :- r.ReadByteString();
      return Success(NodeId(ns, Opaque(if b.None? then [] else b.value)));
    }
    return Failure(InvalidLength);
  }

  method ReadNodeId(r: Reader) returns (res: Result<NodeId>)
    requires r.Valid()
    modifies r
    ensures r.Did(old(r.pos), NodeIdAt(r.bytes, old(r.pos)), res)
  {
    var enc :- r.ReadU8();
    res := DecodeNodeId(r, enc % 64);
  }

  method ReadExpandedNodeId(r: Reader) returns (res: Result<NodeId>)
    requires r.Valid()
    modifies r
    ensures r.Did(old(r.pos), ExpandedNodeIdAt(r.bytes, old(r.pos)), res)
  {
    var enc :- r.ReadU8();
    var inner :- DecodeNodeId(r, enc % 64);
    if HasFlag(enc, FLAG_NAMESPACE_URI) {
      var _ :- r.ReadByteString();
    }
    if HasFlag(enc, FLAG_SERVER_INDEX) {
      var _ :- r.ReadUint(4);
    }
    return Success(inner);
  }
}
