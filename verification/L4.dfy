/** Stripping IPv4/IPv6 and TCP/UDP headers from a raw IP packet. */
module L4 {
  import opened Bytes

  const TCP: byte := 6
  const UDP: byte := 17

  /** The L7 payload and the two ports. */
  datatype Segment = Segment(payload: seq<byte>, srcPort: nat, dstPort: nat)

  function Be16(hi: byte, lo: byte): nat { 256 * hi + lo }

  // ======== The decoders ========

  function ParsePorts(l4: seq<byte>, proto: byte): Option<Segment> {
    if proto == TCP then
      if |l4| < 20 then None else
      var dataOff := (l4[12] / 16) * 4;
      if dataOff < 20 || |l4| < dataOff then None
      else Some(Segment(l4[dataOff..], Be16(l4[0], l4[1]), Be16(l4[2], l4[3])))
    else if proto == UDP then
      if |l4| < 8 then None
      else Some(Segment(l4[8..], Be16(l4[0], l4[1]), Be16(l4[2], l4[3])))
    else None
  }

  function ExtractV4(pkt: seq<byte>): Option<Segment> {
    if |pkt| < 20 then None else
    var ihl := (pkt[0] % 16) * 4;
    if ihl < 20 || |pkt| < ihl then None
    else if Be16(pkt[6], pkt[7]) % 0x2000 != 0 then None
    else ParsePorts(pkt[ihl..], pkt[9])
  }

  /** Hop-by-Hop, Routing and Destination Options: the headers the walk steps over. */
  predicate Skippable(h: byte) { h == 0 || h == 43 || h == 60 }

  /** The length byte counts 8-octet units beyond the first. */
  function ExtensionLength(len: int): int { (len + 1) * 8 }

  /** The extension-header walk with `steps` iterations left. */
  function Walk(pkt: seq<byte>, nextHdr: byte, offset: nat, steps: nat): Option<Segment>
    requires offset <= |pkt|
    decreases steps
  {
    if steps == 0 then None
    else if Skippable(nextHdr) then
      if |pkt| < offset + 2 then None else
      var next := offset + ExtensionLength(pkt[offset + 1]);
      if |pkt| < next then None else Walk(pkt, pkt[offset], next, steps - 1)
    else if nextHdr == TCP || nextHdr == UDP then ParsePorts(pkt[offset..], nextHdr)
    else None
  }

  const MAX_STEPS := 8

  method ExtractV6(pkt: seq<byte>) returns (r: Option<Segment>)
    ensures r == if |pkt| < 40 then None else Walk(pkt, pkt[6], 40, MAX_STEPS)
  {
    if |pkt| < 40 { return None; }
    var nextHdr := pkt[6];
    var offset: nat := 40;
    for i := 0 to MAX_STEPS
      invariant offset <= |pkt|
      invariant Walk(pkt, pkt[6], 40, MAX_STEPS) == Walk(pkt, nextHdr, offset, MAX_STEPS - i)
    {
      if Skippable(nextHdr) {
        if |pkt| < offset + 2 { return None; }
        var nh := pkt[offset];
        var len := ExtensionLength(pkt[offset + 1]);
        offset := offset + len;
        if |pkt| < offset { return None; }
        nextHdr := nh;
      } else if nextHdr == 44 || nextHdr == 50 || nextHdr == 51 {
        return None;
      } else if nextHdr == TCP || nextHdr == UDP {
        return ParsePorts(pkt[offset..], nextHdr);
      } else {
        return None;
      }
    }
    return None;
  }

  function Extract(pkt: seq<byte>): Option<Segment> {
    if pkt == [] then None
    else if pkt[0] / 16 == 4 then ExtractV4(pkt)
    else if pkt[0] / 16 == 6 then if |pkt| < 40 then None else Walk(pkt, pkt[6], 40, MAX_STEPS)
    else None
  }

  method ExtractL4Payload(pkt: seq<byte>) returns (r: Option<Segment>)
    ensures r == Extract(pkt)
  {
    if pkt == [] { return None; }
    if pkt[0] / 16 == 4 { return ExtractV4(pkt); }
    if pkt[0] / 16 == 6 {
      r := ExtractV6(pkt);
      return;
    }
    return None;
  }

  // ======== What a well-formed packet looks like ========

  predicate U16(n: nat) { n < 0x1_0000 }

  /** A transport header of any size, then the payload. `dataOff` is the byte whose high nibble counts
      the 32-bit words of a TCP header. */
  datatype Transport =
    | Tcp(src: nat, dst: nat, seqAck: seq<byte>, dataOff: byte, rest: seq<byte>, payload: seq<byte>)
    | Udp(src: nat, dst: nat, lenSum: seq<byte>, payload: seq<byte>)
  {
    predicate Valid() {
      && U16(src) && U16(dst)
      && match this
         case Tcp(_, _, m, w, r, _) => |m| == 8 && w / 16 >= 5 && |r| == (w / 16) * 4 - 13
         case Udp(_, _, m, _) => |m| == 4
    }
    function Proto(): byte { if Tcp? then TCP else UDP }
    function Ports(): (e: seq<byte>)
      requires Valid()
      ensures |e| == 4
    { [src / 256, src % 256, dst / 256, dst % 256] }
    function Encode(): seq<byte>
      requires Valid()
    {
      match this
      case Tcp(_, _, m, w, r, p) => Ports() + m + [w] + r + p
      case Udp(_, _, m, p) => Ports() + m + p
    }
    function Meaning(): Segment { Segment(payload, src, dst) }
  }

  lemma TransportForward(t: Transport)
    requires t.Valid()
    ensures ParsePorts(t.Encode(), t.Proto()) == Some(t.Meaning())
  {
    var e := t.Encode();
    match t
    case Tcp(_, _, m, w, r, p) =>
      assert e[12] == w;
      assert e[(w / 16) * 4..] == p;
    case Udp(_, _, m, p) =>
      assert e[8..] == p;
  }

  lemma TransportBackward(l4: seq<byte>, proto: byte) returns (t: Transport)
    requires ParsePorts(l4, proto).Some?
    ensures t.Valid() && t.Proto() == proto && t.Encode() == l4 && ParsePorts(l4, proto) == Some(t.Meaning())
  {
    var src, dst := Be16(l4[0], l4[1]), Be16(l4[2], l4[3]);
    var ports := [l4[0], l4[1], l4[2], l4[3]];
    if proto == TCP {
      var off := (l4[12] / 16) * 4;
      t := Tcp(src, dst, l4[4..12], l4[12], l4[13..off], l4[off..]);
      assert t.Ports() == ports;
      assert l4 == ports + l4[4..12] + [l4[12]] + l4[13..off] + l4[off..];
    } else {
      t := Udp(src, dst, l4[4..8], l4[8..]);
      assert t.Ports() == ports;
      assert l4 == ports + l4[4..8] + l4[8..];
    }
  }

  /** One extension header: its own type, its length byte and its body after those two bytes. */
  datatype Extension = Extension(kind: byte, len: byte, body: seq<byte>) {
    predicate Valid() { Skippable(kind) && |body| == ExtensionLength(len) - 2 }
  }

  predicate ValidChain(hs: seq<Extension>) { forall i :: 0 <= i < |hs| ==> hs[i].Valid() }

  function FirstKind(hs: seq<Extension>, last: byte): byte { if hs == [] then last else hs[0].kind }

  /** The chain on the wire: each header names the type of the one after it. */
  function Chain(hs: seq<Extension>, last: byte): seq<byte> {
    if hs == [] then [] else [FirstKind(hs[1..], last), hs[0].len] + hs[0].body + Chain(hs[1..], last)
  }

  lemma ChainHead(pkt: seq<byte>, offset: nat, hs: seq<Extension>, last: byte)
    requires ValidChain(hs) && hs != [] && At(pkt, offset, Chain(hs, last))
    ensures |pkt| >= offset + 2 && pkt[offset] == FirstKind(hs[1..], last) && pkt[offset + 1] == hs[0].len
    ensures var next := offset + ExtensionLength(hs[0].len);
            && next <= |pkt| && At(pkt, next, Chain(hs[1..], last))
            && |Chain(hs, last)| == next - offset + |Chain(hs[1..], last)|
  {
    var h, rest := hs[0], Chain(hs[1..], last);
    var kind := FirstKind(hs[1..], last);
    assert Chain(hs, last) == [kind, h.len] + h.body + rest;
    hide At, Chain, FirstKind, ExtensionLength;
    AtSplit(pkt, offset, [kind, h.len] + h.body, rest);
    AtSplit(pkt, offset, [kind, h.len], h.body);
    assert [kind, h.len] == [kind] + [h.len];
    AtHead(pkt, offset, kind, [h.len]);
    AtByte(pkt, offset + 1, h.len);
  }

  /** Walking over a chain: `steps` iterations get past it exactly when it has at most `steps` headers. */
  lemma {:induction false} WalkChain(pkt: seq<byte>, offset: nat, hs: seq<Extension>, last: byte, steps: nat)
    requires ValidChain(hs) && At(pkt, offset, Chain(hs, last))
    ensures Walk(pkt, FirstKind(hs, last), offset, steps)
         == if |hs| <= steps then Walk(pkt, last, offset + |Chain(hs, last)|, steps - |hs|) else None
    decreases |hs|
  {
    hide At, ParsePorts, ExtensionLength;
    if hs != [] && steps > 0 {
      ChainHead(pkt, offset, hs, last);
      WalkChain(pkt, offset + ExtensionLength(hs[0].len), hs[1..], last, steps - 1);
    }
  }

  /** An IPv6 header: version nibble 6, five bytes, the first next-header, and 33 more. */
  datatype HeaderV6 = HeaderV6(version: byte, flowLen: seq<byte>, rest: seq<byte>) {
    predicate Valid() { version / 16 == 6 && |flowLen| == 5 && |rest| == 33 }
    function Encode(next: byte): (e: seq<byte>)
      requires Valid()
      ensures |e| == 40 && e[0] == version && e[6] == next
    { [version] + flowLen + [next] + rest }
  }

  function PacketV6(h: HeaderV6, hs: seq<Extension>, t: Transport): seq<byte>
    requires h.Valid() && t.Valid()
  {
    h.Encode(FirstKind(hs, t.Proto())) + Chain(hs, t.Proto()) + t.Encode()
  }

  /** Up to seven extension headers of any lengths, then TCP or UDP: exactly its ports and payload. */
  lemma V6Forward(h: HeaderV6, hs: seq<Extension>, t: Transport)
    requires h.Valid() && ValidChain(hs) && t.Valid() && |hs| < MAX_STEPS
    ensures Extract(PacketV6(h, hs, t)) == Some(t.Meaning())
  {
    hide Chain, HeaderV6.Encode, ValidChain, FirstKind, Transport.Encode, ParsePorts;
    var pkt, chain := PacketV6(h, hs, t), Chain(hs, t.Proto());
    AtAround(h.Encode(FirstKind(hs, t.Proto())), chain, t.Encode());
    WalkChain(pkt, 40, hs, t.Proto(), MAX_STEPS);
    assert pkt[40 + |chain|..] == t.Encode();
    TransportForward(t);
  }

  /** Eight or more are too many, whatever follows them. */
  lemma V6TooDeep(h: HeaderV6, hs: seq<Extension>, last: byte, after: seq<byte>)
    requires h.Valid() && ValidChain(hs) && |hs| >= MAX_STEPS
    ensures Extract(h.Encode(FirstKind(hs, last)) + Chain(hs, last) + after) == None
  {
    hide Chain, HeaderV6.Encode, ValidChain, FirstKind;
    var pkt := h.Encode(FirstKind(hs, last)) + Chain(hs, last) + after;
    AtAround(h.Encode(FirstKind(hs, last)), Chain(hs, last), after);
    WalkChain(pkt, 40, hs, last, MAX_STEPS);
  }

  lemma SplitExtension(pkt: seq<byte>, kind: byte, offset: nat, hs: seq<Extension>, last: byte,
                       tail: seq<byte>) returns (h: Extension)
    requires Skippable(kind) && offset + 2 <= |pkt| && pkt[offset] == FirstKind(hs, last) && ValidChain(hs)
    requires var next := offset + ExtensionLength(pkt[offset + 1]);
             next <= |pkt| && pkt[next..] == Chain(hs, last) + tail
    ensures ValidChain([h] + hs) && h.kind == kind && pkt[offset..] == Chain([h] + hs, last) + tail
  {
    var next := offset + ExtensionLength(pkt[offset + 1]);
    h := Extension(kind, pkt[offset + 1], pkt[offset + 2..next]);
    assert ([h] + hs)[1..] == hs;
    var two := [pkt[offset], pkt[offset + 1]];
    assert pkt[offset..] == two + h.body + pkt[next..];
    assert two + h.body + (Chain(hs, last) + tail) == two + h.body + Chain(hs, last) + tail;
  }

  lemma {:induction false} WalkBackward(pkt: seq<byte>, nextHdr: byte, offset: nat, steps: nat)
    returns (hs: seq<Extension>, t: Transport)
    requires offset <= |pkt| && Walk(pkt, nextHdr, offset, steps).Some?
    ensures ValidChain(hs) && |hs| < steps && t.Valid() && nextHdr == FirstKind(hs, t.Proto())
    ensures pkt[offset..] == Chain(hs, t.Proto()) + t.Encode()
    ensures Walk(pkt, nextHdr, offset, steps) == Some(t.Meaning())
    decreases steps
  {
    hide ParsePorts, Transport.Encode, ValidChain;
    if Skippable(nextHdr) {
      var next := offset + ExtensionLength(pkt[offset + 1]);
      var hs', t' := WalkBackward(pkt, pkt[offset], next, steps - 1);
      var h := SplitExtension(pkt, nextHdr, offset, hs', t'.Proto(), t'.Encode());
      hs, t := [h] + hs', t';
    } else {
      t := TransportBackward(pkt[offset..], nextHdr);
      hs := [];
      NoChain(t.Proto());
      assert [] + t.Encode() == t.Encode();
    }
  }

  lemma NoChain(last: byte)
    ensures ValidChain([]) && Chain([], last) == [] && FirstKind([], last) == last
  {
  }

  lemma SplitV6(pkt: seq<byte>) returns (h: HeaderV6)
    requires |pkt| >= 40 && pkt[0] / 16 == 6
    ensures h.Valid() && pkt == h.Encode(pkt[6]) + pkt[40..]
  {
    h := HeaderV6(pkt[0], pkt[1..6], pkt[7..40]);
    assert pkt[..40] == [pkt[0]] + pkt[1..6] + [pkt[6]] + pkt[7..40];
    assert pkt == pkt[..40] + pkt[40..];
  }

  /** Nothing else is accepted: an IPv6 packet with a segment is a header, at most seven extension
      headers and a transport, and the segment is what that transport means. */
  lemma V6Backward(pkt: seq<byte>) returns (h: HeaderV6, hs: seq<Extension>, t: Transport)
    requires pkt != [] && pkt[0] / 16 == 6 && Extract(pkt).Some?
    ensures h.Valid() && ValidChain(hs) && |hs| < MAX_STEPS && t.Valid()
    ensures pkt == PacketV6(h, hs, t) && Extract(pkt) == Some(t.Meaning())
  {
    hide Walk, Chain, Transport.Encode, HeaderV6.Encode, ValidChain;
    hs, t := WalkBackward(pkt, pkt[6], 40, MAX_STEPS);
    h := SplitV6(pkt);
    var a, b, c := h.Encode(pkt[6]), Chain(hs, t.Proto()), t.Encode();
    assert a + (b + c) == a + b + c;
  }

  /** An IPv4 header with options: `ihl` words, flags in the top three bits of `flags`, offset zero. */
  datatype HeaderV4 = HeaderV4(first: byte, a: seq<byte>, flags: byte, ttl: byte, rest: seq<byte>) {
    predicate Valid() {
      && first / 16 == 4 && first % 16 >= 5 && |a| == 5 && |rest| == (first % 16) * 4 - 10
      && flags % 32 == 0
    }
    function Encode(proto: byte): (e: seq<byte>)
      requires Valid()
      ensures |e| == (first % 16) * 4 && e[0] == first && e[6] == flags && e[7] == 0 && e[9] == proto
    { [first] + a + [flags, 0, ttl, proto] + rest }
  }

  lemma V4Forward(h: HeaderV4, t: Transport)
    requires h.Valid() && t.Valid()
    ensures Extract(h.Encode(t.Proto()) + t.Encode()) == Some(t.Meaning())
  {
    hide ParsePorts, Transport.Encode, HeaderV4.Encode;
    var pkt := h.Encode(t.Proto()) + t.Encode();
    assert pkt[(h.first % 16) * 4..] == t.Encode();
    TransportForward(t);
  }

  lemma SplitV4(pkt: seq<byte>) returns (h: HeaderV4)
    requires |pkt| >= 20 && pkt[0] / 16 == 4 && 20 <= (pkt[0] % 16) * 4 <= |pkt|
    requires pkt[6] % 32 == 0 && pkt[7] == 0
    ensures h.Valid() && h.first == pkt[0] && pkt == h.Encode(pkt[9]) + pkt[(pkt[0] % 16) * 4..]
  {
    var ihl := (pkt[0] % 16) * 4;
    h := HeaderV4(pkt[0], pkt[1..6], pkt[6], pkt[8], pkt[10..ihl]);
    assert pkt[..ihl] == [pkt[0]] + pkt[1..6] + [pkt[6], pkt[7], pkt[8], pkt[9]] + pkt[10..ihl];
    assert pkt == pkt[..ihl] + pkt[ihl..];
  }

  lemma ZeroOffset(hi: byte, lo: byte)
    ensures Be16(hi, lo) % 0x2000 == 0 <==> hi % 32 == 0 && lo == 0
  {
    var q, m := hi / 32, 256 * (hi % 32) + lo;
    assert Be16(hi, lo) == 0x2000 * q + m && 0 <= m < 0x2000;
    assert (0x2000 * q + m) / 0x2000 == q;
  }

  /** Only such packets are accepted. The more-fragments flag is among the free bits of `flags`: a
      first fragment is not recognised as one. */
  lemma V4Backward(pkt: seq<byte>) returns (h: HeaderV4, t: Transport)
    requires pkt != [] && pkt[0] / 16 == 4 && Extract(pkt).Some?
    ensures h.Valid() && t.Valid() && pkt == h.Encode(t.Proto()) + t.Encode() && Extract(pkt) == Some(t.Meaning())
  {
    hide ParsePorts, Transport.Encode, HeaderV4.Encode, Be16;
    var ihl := (pkt[0] % 16) * 4;
    t := TransportBackward(pkt[ihl..], pkt[9]);
    ZeroOffset(pkt[6], pkt[7]);
    h := SplitV4(pkt);
  }

  /** The whole of a datagram and not a piece of one: no more fragments follow and none went before. */
  predicate Unfragmented(pkt: seq<byte>)
    requires |pkt| >= 20
  { !HasFlag(pkt[6], 0x20) && Be16(pkt[6], pkt[7]) % 0x2000 == 0 }

  /** Of the two signs of a fragment only the offset is looked at: an accepted packet is unfragmented
      exactly when it says that no more fragments follow. */
  lemma UnfragmentedIff(pkt: seq<byte>)
    requires pkt != [] && pkt[0] / 16 == 4 && Extract(pkt).Some?
    ensures |pkt| >= 20 && (Unfragmented(pkt) <==> !HasFlag(pkt[6], 0x20))
  {
    hide ParsePorts, Be16;
  }

  /** So the first fragment of any datagram is taken for all of it: setting the more-fragments flag of a
      packet changes nothing. */
  lemma FirstFragmentAccepted(h: HeaderV4, t: Transport)
    requires h.Valid() && t.Valid() && HasFlag(h.flags, 0x20)
    ensures var pkt := h.Encode(t.Proto()) + t.Encode();
            |pkt| >= 20 && !Unfragmented(pkt) && Extract(pkt) == Some(t.Meaning())
  {
    hide ParsePorts, Transport.Encode, Be16;
    V4Forward(h, t);
  }

  /** Every payload is a suffix of its packet. */
  lemma PayloadIsSuffix(pkt: seq<byte>)
    requires Extract(pkt).Some?
    ensures var p := Extract(pkt).value.payload; |p| <= |pkt| && pkt[|pkt| - |p|..] == p
  {
    hide ExtractV4, Walk, Chain, HeaderV6.Encode, HeaderV4.Encode, Transport.Encode;
    if pkt[0] / 16 == 6 {
      var h, hs, t := V6Backward(pkt);
      TransportSuffix(t);
      SuffixOfSuffix(pkt, t.Encode(), t.payload);
    } else {
      var h, t := V4Backward(pkt);
      TransportSuffix(t);
      SuffixOfSuffix(pkt, t.Encode(), t.payload);
    }
  }

  lemma TransportSuffix(t: Transport)
    requires t.Valid()
    ensures |t.payload| <= |t.Encode()| && t.Encode()[|t.Encode()| - |t.payload|..] == t.payload
  {
  }

  lemma SuffixOfSuffix(s: seq<byte>, m: seq<byte>, e: seq<byte>)
    requires |e| <= |m| <= |s| && s[|s| - |m|..] == m && m[|m| - |e|..] == e
    ensures s[|s| - |e|..] == e
  {
    assert s[|s| - |m|..][|m| - |e|..] == s[|s| - |e|..];
  }
}
