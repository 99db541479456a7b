/** The OPC UA binary cursor: little-endian primitives, length-prefixed strings, repetition. */
module OpcUaReader {
  import opened Bytes
  import opened Collections

  datatype ReaderError = OutOfBounds | InvalidUtf8 | InvalidLength

  /** What decoding at an offset yields: a value and the offset just after it, or an error. */
  datatype Parsed<+T> = Ok(value: T, next: nat) | Err(error: ReaderError) {
    predicate IsFailure() { Err? }
    function PropagateFailure<U>(): Parsed<U>
      requires Err?
    { Err(error) }
    function Extract(): (T, nat)
      requires Ok?
    { (value, next) }
    /** The cursor never moves back from `p`, and never leaves `s` from inside it. */
    predicate Within(s: seq<byte>, p: nat) { Ok? ==> p <= next && (p <= |s| ==> next <= |s|) }
  }

  datatype Result<+T> = Success(value: T) | Failure(error: ReaderError) {
    predicate IsFailure() { Failure? }
    function PropagateFailure<U>(): Result<U>
      requires Failure?
    { Failure(error) }
    function Extract(): T
      requires Success?
    { value }
  }

  // ---- Decoding at an offset ----

  function BytesAt(s: seq<byte>, p: nat, n: nat): (r: Parsed<seq<byte>>)
    ensures r.Within(s, p)
  {
    if p + n <= |s| then Ok(s[p..p + n], p + n) else Err(OutOfBounds)
  }

  function U8At(s: seq<byte>, p: nat): (r: Parsed<byte>)
    ensures r.Within(s, p)
  {
    if p < |s| then Ok(s[p], p + 1) else Err(OutOfBounds)
  }

  /** An unsigned little-endian integer of `k` bytes (`read_u16`, `read_u32`, `read_u64`, float bits). */
  function UintAt(s: seq<byte>, p: nat, k: nat): (r: Parsed<nat>)
    ensures r.Within(s, p)
    ensures r.Ok? ==> r.value < Pow256(k)
  {
    var (b, q) :- BytesAt(s, p, k);
    Ok(LeValue(b), q)
  }

  /** A two's-complement little-endian integer of `k` bytes (`read_i8` ... `read_i64`). */
  function IntAt(s: seq<byte>, p: nat, k: nat): (r: Parsed<int>)
    ensures r.Within(s, p)
  {
    var (n, q) :- UintAt(s, p, k);
    Ok(ToSigned(n, k), q)
  }

  function ByteStringAt(s: seq<byte>, p: nat): (r: Parsed<Option<seq<byte>>>)
    ensures r.Within(s, p)
  {
    var (len, q) :- IntAt(s, p, 4);
    if len < 0 then Ok(None, q) else
    var (b, e) :- BytesAt(s, q, len);
    Ok(Some(b), e)
  }

  function StringAt(s: seq<byte>, p: nat): (r: Parsed<Option<seq<byte>>>)
    ensures r.Within(s, p)
  {
    var (b, q) :- ByteStringAt(s, p);
    if b.Some? && !Utf8(b.value) then Err(InvalidUtf8) else Ok(b, q)
  }

  function ArrayLengthAt(s: seq<byte>, p: nat): (r: Parsed<Option<nat>>)
    ensures r.Within(s, p)
  {
    var (len, q) :- IntAt(s, p, 4);
    Ok(if len < 0 then None else Some(len), q)
  }

  /** `n` consecutive items, each decoded by `item` from where the previous one ended. */
  function Many<T>(item: nat -> Parsed<T>, p: nat, n: nat): (r: Parsed<seq<T>>)
    ensures r.Ok? ==> |r.value| == n
    decreases n
  {
    if n == 0 then Ok([], p) else
    var (v, q) :- item(p);
    var (vs, e) :- Many(item, q, n - 1);
    Ok([v] + vs, e)
  }

  ghost predicate Bounded<T>(s: seq<byte>, item: nat -> Parsed<T>) {
    forall q: nat :: item(q).Within(s, q)
  }

  lemma {:induction false} ManyWithin<T>(s: seq<byte>, item: nat -> Parsed<T>, p: nat, n: nat)
    requires Bounded(s, item) && p <= |s|
    ensures Many(item, p, n).Within(s, p)
    decreases n
  {
    if n > 0 && item(p).Ok? {
      assert item(p).Within(s, p);
      ManyWithin(s, item, item(p).next, n - 1);
    }
  }

  function Prepend<T>(vs: seq<T>, r: Parsed<seq<T>>): (t: Parsed<seq<T>>)
    ensures vs == [] ==> t == r
    ensures r.Ok? && r.value == [] ==> t == Ok(vs, r.next)
  {
    assert r.Ok? ==> [] + r.value == r.value;
    assert vs + [] == vs;
    if r.Ok? then Ok(vs + r.value, r.next) else r
  }

  /** Unfolds one step of `Many` behind the values already collected. */
  lemma ManyStep<T>(vs: seq<T>, item: nat -> Parsed<T>, p: nat, n: nat)
    requires n > 0
    ensures item(p).Err? ==> Prepend(vs, Many(item, p, n)) == Err(item(p).error)
    ensures item(p).Ok? ==>
              Prepend(vs, Many(item, p, n)) == Prepend(vs + [item(p).value], Many(item, item(p).next, n - 1))
  {
    if item(p).Ok? && Many(item, item(p).next, n - 1).Ok? {
      var rest := Many(item, item(p).next, n - 1).value;
      assert vs + ([item(p).value] + rest) == (vs + [item(p).value]) + rest;
    }
  }

  // ---- Encodings ----

  lemma BytesForward(s: seq<byte>, p: nat, b: seq<byte>)
    requires At(s, p, b)
    ensures BytesAt(s, p, |b|) == Ok(b, p + |b|)
  {
  }

  lemma UintForward(s: seq<byte>, p: nat, n: nat, k: nat)
    requires n < Pow256(k) && At(s, p, LeBytes(n, k))
    ensures UintAt(s, p, k) == Ok(n, p + k)
  {
    LeRoundTrip(n, k);
  }

  lemma UintBackward(s: seq<byte>, p: nat, k: nat)
    requires UintAt(s, p, k).Ok?
    ensures At(s, p, LeBytes(UintAt(s, p, k).value, k)) && UintAt(s, p, k).next == p + k
  {
    LeBytesOfValue(s[p..p + k]);
  }

  function IntBytes(v: int, k: nat): (e: seq<byte>)
    requires SignedRange(v, k)
    ensures |e| == k
  {
    LeBytes(FromSigned(v, k), k)
  }

  lemma IntForward(s: seq<byte>, p: nat, v: int, k: nat)
    requires SignedRange(v, k) && At(s, p, IntBytes(v, k))
    ensures IntAt(s, p, k) == Ok(v, p + k)
  {
    UintForward(s, p, FromSigned(v, k), k);
  }

  lemma IntBackward(s: seq<byte>, p: nat, k: nat)
    requires IntAt(s, p, k).Ok?
    ensures IntAt(s, p, k).next == p + k && SignedRange(IntAt(s, p, k).value, k)
    ensures At(s, p, IntBytes(IntAt(s, p, k).value, k))
  {
    UintBackward(s, p, k);
  }

  /** A String or ByteString on the wire. Every negative length means null. */
  datatype WireString = NullString(length: int) | Chars(bytes: seq<byte>) {
    predicate Valid() {
      match this
      case NullString(n) => n < 0 && SignedRange(n, 4)
      case Chars(b) => SignedRange(|b|, 4)
    }
    predicate ValidText() { Valid() && (Chars? ==> Utf8(bytes)) }
    function Encode(): (e: seq<byte>)
      requires Valid()
      ensures |e| >= 4
    {
      match this
      case NullString(n) => IntBytes(n, 4)
      case Chars(b) => IntBytes(|b|, 4) + b
    }
    function Meaning(): Option<seq<byte>> { if NullString? then None else Some(bytes) }
  }

  lemma ByteStringForward(s: seq<byte>, p: nat, w: WireString)
    requires w.Valid() && At(s, p, w.Encode())
    ensures ByteStringAt(s, p) == Ok(w.Meaning(), p + |w.Encode()|)
    ensures w.ValidText() ==> StringAt(s, p) == Ok(w.Meaning(), p + |w.Encode()|)
  {
    match w
    case NullString(n) => IntForward(s, p, n, 4);
    case Chars(b) =>
      AtSplit(s, p, IntBytes(|b|, 4), b);
      IntForward(s, p, |b|, 4);
  }

  lemma ByteStringBackward(s: seq<byte>, p: nat) returns (w: WireString)
    requires ByteStringAt(s, p).Ok?
    ensures w.Valid() && At(s, p, w.Encode())
    ensures ByteStringAt(s, p) == Ok(w.Meaning(), p + |w.Encode()|)
    ensures StringAt(s, p).Ok? ==> w.ValidText()
  {
    IntBackward(s, p, 4);
    var len := IntAt(s, p, 4).value;
    if len < 0 {
      w := NullString(len);
    } else {
      w := Chars(ByteStringAt(s, p).value.value);
      AtSplit(s, p, IntBytes(len, 4), w.bytes);
    }
  }

  /** The length prefix of an array: null (any negative length) or a count. */
  datatype WireCount = NullArray(length: int) | Count(n: nat) {
    predicate Valid() {
      match this
      case NullArray(k) => k < 0 && SignedRange(k, 4)
      case Count(k) => SignedRange(k, 4)
    }
    function Raw(): int { match this case NullArray(k) => k case Count(k) => k }
    function Encode(): (e: seq<byte>)
      requires Valid()
      ensures |e| == 4
    { IntBytes(Raw(), 4) }
    function Meaning(): Option<nat> { if NullArray? then None else Some(n) }
  }

  lemma CountForward(s: seq<byte>, p: nat, w: WireCount)
    requires w.Valid() && At(s, p, w.Encode())
    ensures ArrayLengthAt(s, p) == Ok(w.Meaning(), p + 4)
  {
    IntForward(s, p, w.Raw(), 4);
  }

  lemma CountBackward(s: seq<byte>, p: nat) returns (w: WireCount)
    requires ArrayLengthAt(s, p).Ok?
    ensures w.Valid() && At(s, p, w.Encode()) && ArrayLengthAt(s, p) == Ok(w.Meaning(), p + 4)
  {
    IntBackward(s, p, 4);
    var len := IntAt(s, p, 4).value;
    w := if len < 0 then NullArray(len) else Count(len);
  }

  /** If `item` decodes each `es[i]` to `vs[i]` wherever it occurs, `Many` decodes their concatenation. */
  lemma {:induction false} ManyForward<T>(s: seq<byte>, item: nat -> Parsed<T>, p: nat,
                                          es: seq<seq<byte>>, vs: seq<T>)
    requires |es| == |vs|
    requires forall i, q: nat {:trigger item(q), es[i]} ::
               0 <= i < |es| && At(s, q, es[i]) ==> item(q) == Ok(vs[i], q + |es[i]|)
    requires At(s, p, Concat(es))
    ensures Many(item, p, |es|) == Ok(vs, p + |Concat(es)|)
    decreases |es|
  {
    hide At;
    if es != [] {
      AtSplit(s, p, es[0], Concat(es[1..]));
      assert item(p) == Ok(vs[0], p + |es[0]|);
      forall i, q: nat | 0 <= i < |es[1..]| && At(s, q, es[1..][i])
        ensures item(q) == Ok(vs[1..][i], q + |es[1..][i]|)
      {
        assert es[1..][i] == es[i + 1] && vs[1..][i] == vs[i + 1];
      }
      ManyForward(s, item, p + |es[0]|, es[1..], vs[1..]);
      assert vs == [vs[0]] + vs[1..];
    }
  }

  // ---- The cursor ----

  class Reader {
    const bytes: seq<byte>
    var pos: nat

    constructor (bytes: seq<byte>)
      ensures this.bytes == bytes && pos == 0 && Valid()
    {
      this.bytes := bytes;
      pos := 0;
    }

    ghost predicate Valid()
      reads this
    { pos <= |bytes| }

    /** A read that began at `start` returned `res` and left the cursor where `spec` says;
        after an error the cursor is still inside the buffer and not before `start`. */
    ghost predicate Did<T>(start: nat, spec: Parsed<T>, res: Result<T>)
      reads this
    {
      && start <= pos <= |bytes|
      && match spec
         case Ok(v, n) => res == Success(v) && pos == n
         case Err(e) => res == Failure(e)
    }

    method ReadU8() returns (res: Result<byte>)
      requires Valid()
      modifies this
      ensures Did(old(pos), U8At(bytes, old(pos)), res)
    {
      if pos >= |bytes| { return Failure(OutOfBounds); }
      var v := bytes[pos];
      pos := pos + 1;
      return Success(v);
    }

    method ReadBytes(n: nat) returns (res: Result<seq<byte>>)
      requires Valid()
      modifies this
      ensures Did(old(pos), BytesAt(bytes, old(pos), n), res)
    {
      if pos + n > |bytes| { return Failure(OutOfBounds); }
      var slice := bytes[pos..pos + n];
      pos := pos + n;
      return Success(slice);
    }

    method ReadUint(k: nat) returns (res: Result<nat>)
      requires Valid()
      modifies this
      ensures Did(old(pos), UintAt(bytes, old(pos), k), res)
    {
      var b :- ReadBytes(k);
      return Success(LeValue(b));
    }

    method ReadInt(k: nat) returns (res: Result<int>)
      requires Valid()
      modifies this
      ensures Did(old(pos), IntAt(bytes, old(pos), k), res)
    {
      var n :- ReadUint(k);
      return Success(ToSigned(n, k));
    }

    method ReadByteString() returns (res: Result<Option<seq<byte>>>)
      requires Valid()
      modifies this
      ensures Did(old(pos), ByteStringAt(bytes, old(pos)), res)
    {
      var len :- ReadInt(4);
      if len < 0 { return Success(None); }
      var b :- ReadBytes(len);
      return Success(Some(b));
    }

    method ReadString() returns (res: Result<Option<seq<byte>>>)
      requires Valid()
      modifies this
      ensures Did(old(pos), StringAt(bytes, old(pos)), res)
    {
      var b :- ReadByteString();
      if b.Some? && !Utf8(b.value) { return Failure(InvalidUtf8); }
      return Success(b);
    }

    method ReadArrayLength() returns (res: Result<Option<nat>>)
      requires Valid()
      modifies this
      ensures Did(old(pos), ArrayLengthAt(bytes, old(pos)), res)
    {
      var len :- ReadInt(4);
      if len < 0 { return Success(None); }
      return Success(Some(len));
    }
  }
}
