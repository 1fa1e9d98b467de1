/**
 The STUN codec of `tools/remote-access/stun_probe.py`: the request it sends and the parser of the Binding
 Success Response (sections 6, 15, 15.1 and 15.2 of RFC 5389), over bytes.
 */
module Stun {

  import opened Bytes

  const MAGIC: seq<byte> := [0x21, 0x12, 0xA4, 0x42]
  const MAGIC_HIGH := 0x2112
  const MAPPED_ADDRESS := 0x0001
  const XOR_MAPPED_ADDRESS := 0x0020

  /** An IPv4 transport address; the program renders the four bytes with inet_ntoa. */
  datatype Address = Address(ip: seq<byte>, port: nat) {
    predicate Valid() { |ip| == 4 && port < 0x1_0000 }
  }

  /** struct "!H" */
  function Pack16(x: nat): (r: seq<byte>)
    requires x < 0x1_0000
    ensures |r| == 2
  {
    [(x / 256) as byte, (x % 256) as byte]
  }

  function Unpack16(hi: byte, lo: byte): (x: nat)
    ensures x < 0x1_0000 && Pack16(x) == [hi, lo]
  {
    256 * (hi as nat) + (lo as nat)
  }

  /** The bitwise exclusive or of two numbers of `bits` bits. */
  function Xor(a: nat, b: nat, bits: nat): nat {
    if bits == 0 then 0 else 2 * Xor(a / 2, b / 2, bits - 1) + (a + b) % 2
  }

  function Pow2(k: nat): (p: nat)
    ensures p > 0
  {
    if k == 0 then 1 else 2 * Pow2(k - 1)
  }

  /** Xor stays within its bits and undoes itself. */
  lemma {:induction false} XorTwice(a: nat, b: nat, bits: nat)
    requires a < Pow2(bits)
    ensures Xor(a, b, bits) < Pow2(bits) && Xor(Xor(a, b, bits), b, bits) == a
  {
    if bits == 0 {
    } else {
      XorTwice(a / 2, b / 2, bits - 1);
      var x := Xor(a, b, bits);
      var h := Xor(a / 2, b / 2, bits - 1);
      assert x == 2 * h + (a + b) % 2;
      assert x / 2 == h;
      Parity(a, b, x, h);
    }
  }

  // What the exclusive or is, bit by bit, apart from how it is computed.

  predicate HasBit(x: nat, i: nat) { if i == 0 then x % 2 == 1 else HasBit(x / 2, i - 1) }

  /** `x` and `y` differ, in their lowest `n` bits, exactly where `mask` has a one. */
  predicate DifferWhere(x: nat, y: nat, mask: nat, n: nat) {
    forall i | 0 <= i < n :: HasBit(x, i) != HasBit(y, i) <==> HasBit(mask, i)
  }

  lemma HalfThenPower(x: nat, i: nat)
    requires i > 0
    ensures x / Pow2(i) == x / 2 / Pow2(i - 1)
  {
    var p := Pow2(i - 1);
    var q, r := x / 2 / p, x / 2 % p;
    assert x / 2 == q * p + r;
    assert x == q * (2 * p) + (2 * r + x % 2) by {
      assert x == 2 * (q * p + r) + x % 2;
      assert 2 * (q * p) == q * (2 * p);
    }
    QuotientIs(x, 2 * p, q, 2 * r + x % 2);
  }

  lemma QuotientIs(x: nat, d: nat, q: nat, r: nat)
    requires r < d && x == q * d + r
    ensures x / d == q
  {
    var e := x / d;
    assert e * d <= x < e * d + d;
    NextMultiple(e, q, d);
    NextMultiple(q, e, d);
  }

  lemma NextMultiple(a: nat, b: nat, d: nat)
    ensures a < b ==> a * d + d <= b * d
  {
    if a < b {
      Monotone(a + 1, b, d);
      assert (a + 1) * d == a * d + d;
    }
  }

  lemma Monotone(a: nat, b: nat, d: nat)
    requires a <= b
    ensures a * d <= b * d
  {
  }

  lemma {:induction false} HasBitIs(x: nat, i: nat)
    ensures HasBit(x, i) <==> x / Pow2(i) % 2 == 1
  {
    if i == 0 {
      assert Pow2(0) == 1;
    } else {
      HasBitIs(x / 2, i - 1);
      HalfThenPower(x, i);
    }
  }

  lemma XorHalves(a: nat, b: nat, bits: nat)
    requires bits > 0
    ensures Xor(a, b, bits) / 2 == Xor(a / 2, b / 2, bits - 1)
    ensures Xor(a, b, bits) % 2 == 1 <==> a % 2 != b % 2
  {
  }

  /** Bit `i` of the exclusive or is set if and only if exactly one of the two has it. */
  lemma {:induction false} XorBit(a: nat, b: nat, bits: nat, i: nat)
    requires i < bits
    ensures HasBit(Xor(a, b, bits), i) <==> HasBit(a, i) != HasBit(b, i)
  {
    XorHalves(a, b, bits);
    if i == 0 {
    } else {
      XorBit(a / 2, b / 2, bits - 1, i - 1);
      assert HasBit(Xor(a, b, bits), i) == HasBit(Xor(a / 2, b / 2, bits - 1), i - 1);
    }
  }

  lemma {:induction false} XorDiffers(a: nat, mask: nat, bits: nat)
    ensures DifferWhere(Xor(a, mask, bits), a, mask, bits)
  {
    forall i | 0 <= i < bits ensures HasBit(Xor(a, mask, bits), i) != HasBit(a, i) <==> HasBit(mask, i) {
      XorBit(a, mask, bits, i);
    }
  }

  lemma Parity(a: nat, b: nat, x: nat, h: nat)
    requires x == 2 * h + (a + b) % 2
    ensures (x + b) % 2 == a % 2
  {
    var q := (a + b) / 2;
    assert a + b == 2 * q + (a + b) % 2;
    assert x + b == a + 2 * (b + h - q);
  }

  lemma XorWidths(a: nat, b: nat)
    ensures a < 256 ==> Xor(a, b, 8) < 256 && Xor(Xor(a, b, 8), b, 8) == a
    ensures a < 0x1_0000 ==> Xor(a, b, 16) < 0x1_0000 && Xor(Xor(a, b, 16), b, 16) == a
  {
    Widths();
    if a < 256 { XorTwice(a, b, 8); }
    if a < 0x1_0000 { XorTwice(a, b, 16); }
  }

  lemma Widths()
    ensures Pow2(8) == 256 && Pow2(16) == 0x1_0000
  {
    assert Pow2(4) == 16 by { assert Pow2(2) == 4; }
    assert Pow2(8) == 256 by { assert Pow2(6) == 64; }
    assert Pow2(12) == 4096 by { assert Pow2(10) == 1024; }
    assert Pow2(14) == 16384;
  }

  function XorByte(a: byte, b: byte): byte {
    XorWidths(a as nat, b as nat);
    Xor(a as nat, b as nat, 8) as byte
  }

  /** zip and xor of two byte strings, as long as the shorter one. */
  function XorBytes(a: seq<byte>, b: seq<byte>): (r: seq<byte>)
    ensures |r| == if |a| < |b| then |a| else |b|
  {
    if a == [] || b == [] then [] else [XorByte(a[0], b[0])] + XorBytes(a[1..], b[1..])
  }

  lemma {:induction false} XorBytesTwice(a: seq<byte>, b: seq<byte>)
    requires |a| <= |b|
    ensures XorBytes(XorBytes(a, b), b) == a
  {
    if a == [] {
    } else {
      XorWidths(a[0] as nat, b[0] as nat);
      XorBytesTwice(a[1..], b[1..]);
      assert XorBytes(a, b)[1..] == XorBytes(a[1..], b[1..]);
    }
  }

  function XorPort(port: nat): (x: nat)
    requires port < 0x1_0000
    ensures x < 0x1_0000
  {
    XorWidths(port, MAGIC_HIGH);
    Xor(port, MAGIC_HIGH, 16)
  }

  /** data[lo:hi] of a Python sequence: out-of-range bounds are cut back. */
  function Slice(data: seq<byte>, lo: nat, hi: nat): (r: seq<byte>)
    requires lo <= hi
  {
    var h := if hi < |data| then hi else |data|;
    if lo < h then data[lo..h] else []
  }

  /** What parsing ends in: an answer (possibly none) or an exception of struct or inet_ntoa. */
  datatype Outcome = Answer(address: Option) | Raised
  datatype Option = None | Some(value: Address)

  /** The two variables of the loop. */
  datatype Found = Found(mapped: Option, xor: Option)

  function Pick(f: Found): Option { if f.xor.Some? then f.xor else f.mapped }

  function PaddedLen(n: nat): nat { (n + 3) / 4 * 4 }

  /** Values are padded to the next multiple of four, and there is one only. */
  lemma PaddedLenIs(n: nat, r: nat)
    ensures r == PaddedLen(n) <==> r % 4 == 0 && n <= r < n + 4
  {
  }

  /** A value too short for the bytes 2..8 of an address raises. */
  function ReadAddress(val: seq<byte>, xored: bool): Option {
    if |val| < 8 then None
    else
      var port := Unpack16(val[2], val[3]);
      if xored then Some(Address(XorBytes(val[4..8], MAGIC), XorPort(port)))
      else Some(Address(val[4..8], port))
  }

  /** Walking the attributes of a body: the two variables in the end, or an exception. */
  datatype Walk = Walk(found: Found) | Fault

  /** What one attribute does to the two variables. */
  function Note(atype: nat, alen: nat, val: seq<byte>, f: Found): Walk {
    if (atype == MAPPED_ADDRESS || atype == XOR_MAPPED_ADDRESS) && alen >= 8 then
      var a := ReadAddress(val, atype == XOR_MAPPED_ADDRESS);
      if a.None? then Fault
      else Walk(if atype == XOR_MAPPED_ADDRESS then f.(xor := a) else f.(mapped := a))
    else Walk(f)
  }

  function Drop(s: seq<byte>, k: nat): seq<byte> { if k <= |s| then s[k..] else [] }

  /** Walking the attributes of what is left of the body. */
  function WalkFrom(rest: seq<byte>, f: Found): Walk
    decreases |rest|
  {
    if |rest| < 4 then Walk(f)
    else
      var alen := Unpack16(rest[2], rest[3]);
      match Note(Unpack16(rest[0], rest[1]), alen, Slice(rest, 4, 4 + alen), f)
      case Fault => Fault
      case Walk(g) => WalkFrom(Drop(rest, 4 + PaddedLen(alen)), g)
  }

  predicate IsSuccessResponse(data: seq<byte>) {
    |data| >= 20 && data[0..2] == Pack16(0x0101) && data[4..8] == MAGIC
  }

  function Parse(data: seq<byte>): Outcome {
    if !IsSuccessResponse(data) then Answer(None)
    else match WalkFrom(data[20..], Found(None, None))
      case Fault => Raised
      case Walk(f) => Answer(Pick(f))
  }

  /** `parse_response`, for any input. */
  method ParseResponse(data: seq<byte>) returns (r: Outcome)
    ensures r == Parse(data)
  {
    if |data| < 20 {
      return Answer(None);
    }
    if data[0..2] != Pack16(0x0101) || data[4..8] != MAGIC {
      return Answer(None);
    }
    r := ParseBody(data[20..]);
  }

  /** The attribute loop of `parse_response`. */
  method ParseBody(body: seq<byte>) returns (r: Outcome)
    ensures r == var w := WalkFrom(body, Found(None, None)); if w.Fault? then Raised else Answer(Pick(w.found))
  {
    ghost var target := WalkFrom(body, Found(None, None));
    ghost var rest := body;
    var f := Found(None, None);
    var i := 0;
    while i + 4 <= |body|
      invariant rest == Drop(body, i) && target == WalkFrom(rest, f)
      decreases |body| - i
    {
      var atype, alen := Unpack16(body[i], body[i + 1]), Unpack16(body[i + 2], body[i + 3]);
      var val := Slice(body, i + 4, i + 4 + alen);
      var w := NoteAttribute(atype, alen, val, f);
      FieldsAt(body, i, rest, alen);
      WalkStep(rest, atype, alen, f, w);
      rest := Drop(rest, 4 + PaddedLen(alen));
      if w.Fault? {
        return Raised;
      }
      f := w.found;
      i := i + 4 + PaddedLen(alen);
    }
    return Answer(Pick(f));
  }

  method NoteAttribute(atype: nat, alen: nat, val: seq<byte>, before: Found) returns (w: Walk)
    ensures w == Note(atype, alen, val, before)
  {
    var f := before;
    if atype == MAPPED_ADDRESS && alen >= 8 {
      var a := ReadAddress(val, false);
      if a.None? { return Fault; }
      f := f.(mapped := a);
    } else if atype == XOR_MAPPED_ADDRESS && alen >= 8 {
      var a := ReadAddress(val, true);
      if a.None? { return Fault; }
      f := f.(xor := a);
    }
    return Walk(f);
  }

  /** What is left of the body at `i` starts with the fields the loop reads there. */
  lemma FieldsAt(body: seq<byte>, i: nat, rest: seq<byte>, alen: nat)
    requires i + 4 <= |body| && rest == Drop(body, i)
    ensures |rest| >= 4 && rest[0] == body[i] && rest[1] == body[i + 1]
    ensures rest[2] == body[i + 2] && rest[3] == body[i + 3]
    ensures Slice(rest, 4, 4 + alen) == Slice(body, i + 4, i + 4 + alen)
    ensures Drop(rest, 4 + PaddedLen(alen)) == Drop(body, i + 4 + PaddedLen(alen))
  {
    DropShifts(body, i, 4, 4 + alen);
    DropShifts(body, i, 4, 4 + PaddedLen(alen));
  }

  lemma WalkStep(rest: seq<byte>, atype: nat, alen: nat, f: Found, w: Walk)
    requires |rest| >= 4 && atype == Unpack16(rest[0], rest[1]) && alen == Unpack16(rest[2], rest[3])
    requires w == Note(atype, alen, Slice(rest, 4, 4 + alen), f)
    ensures WalkFrom(rest, f) == if w.Fault? then Fault else WalkFrom(Drop(rest, 4 + PaddedLen(alen)), w.found)
  {
    match Note(atype, alen, Slice(rest, 4, 4 + alen), f)
    case Fault =>
    case Walk(g) =>
  }

  lemma DropShifts(body: seq<byte>, i: nat, lo: nat, hi: nat)
    requires i <= |body| && lo <= hi
    ensures Slice(Drop(body, i), lo, hi) == Slice(body, i + lo, i + hi)
    ensures Drop(Drop(body, i), hi) == Drop(body, i + hi)
  {
    var n := |body| - i;
    assert body[i..|body|] == body[i..];
    if lo < n { SubSlice(body, i, |body|, lo, if hi < n then hi else n); }
    if hi <= n { SubSlice(body, i, |body|, hi, n); }
  }

  // ----- The encoder side -----

  /** An attribute of a response; `padding` brings the value to a multiple of four bytes and may hold anything. */
  datatype Attribute =
    | Mapped(address: Address)
    | XorMapped(address: Address)
    | Other(atype: nat, value: seq<byte>, padding: seq<byte>)
  {
    predicate Valid() {
      match this
      case Mapped(a) => a.Valid()
      case XorMapped(a) => a.Valid()
      case Other(t, v, p) =>
        && t < 0x1_0000 && t != MAPPED_ADDRESS && t != XOR_MAPPED_ADDRESS
        && |v| < 0x1_0000 && |v| + |p| == PaddedLen(|v|)
    }

    function Type(): nat {
      match this case Mapped(_) => MAPPED_ADDRESS case XorMapped(_) => XOR_MAPPED_ADDRESS case Other(t, _, _) => t
    }

    /** Sections 15.1 and 15.2: a zero byte, family 0x01 for IPv4, port and address; the xor variant obfuscated. */
    function Value(): seq<byte>
      requires Valid()
    {
      match this
      case Mapped(a) => [0, 1] + Pack16(a.port) + a.ip
      case XorMapped(a) => [0, 1] + Pack16(XorPort(a.port)) + XorBytes(a.ip, MAGIC)
      case Other(_, v, _) => v
    }

    function Padding(): seq<byte> { if Other? then padding else [] }
  }

  /** Section 15: type, length, value, padding. */
  function Tlv(t: nat, val: seq<byte>, padding: seq<byte>): seq<byte>
    requires t < 0x1_0000 && |val| < 0x1_0000
  {
    Pack16(t) + Pack16(|val|) + val + padding
  }

  function Encode(a: Attribute): seq<byte>
    requires a.Valid()
  {
    Tlv(a.Type(), a.Value(), a.Padding())
  }

  predicate AllValid(attrs: seq<Attribute>) { forall a | a in attrs :: a.Valid() }

  function EncodeAll(attrs: seq<Attribute>): seq<byte>
    requires AllValid(attrs)
  {
    if attrs == [] then [] else Encode(attrs[0]) + EncodeAll(attrs[1..])
  }

  /** The reference answer, read from the back of the list. */
  function LastMapped(attrs: seq<Attribute>): Option {
    if attrs == [] then None
    else if attrs[|attrs| - 1].Mapped? then Some(attrs[|attrs| - 1].address)
    else LastMapped(attrs[..|attrs| - 1])
  }

  function LastXorMapped(attrs: seq<Attribute>): Option {
    if attrs == [] then None
    else if attrs[|attrs| - 1].XorMapped? then Some(attrs[|attrs| - 1].address)
    else LastXorMapped(attrs[..|attrs| - 1])
  }

  /** A response: header with any length field and transaction id, the attributes, up to three stray bytes. */
  function EncodeResponse(len: nat, tid: seq<byte>, attrs: seq<Attribute>, tail: seq<byte>): seq<byte>
    requires AllValid(attrs) && len < 0x1_0000
  {
    Pack16(0x0101) + Pack16(len) + MAGIC + tid + EncodeAll(attrs) + tail
  }

  function Noted(a: Attribute, f: Found): Found {
    match a
    case Mapped(x) => f.(mapped := Some(x))
    case XorMapped(x) => f.(xor := Some(x))
    case Other(_, _, _) => f
  }

  lemma Unpack16InvertsPack16(x: nat)
    requires x < 0x1_0000
    ensures Unpack16(Pack16(x)[0], Pack16(x)[1]) == x
  {
  }

  lemma {:induction false} FieldsOfTlv(t: nat, val: seq<byte>, padding: seq<byte>, more: seq<byte>)
    requires t < 0x1_0000 && |val| < 0x1_0000 && |val| + |padding| == PaddedLen(|val|)
    ensures var rest := Tlv(t, val, padding) + more;
      && |rest| >= 4 && Unpack16(rest[0], rest[1]) == t && Unpack16(rest[2], rest[3]) == |val|
      && Slice(rest, 4, 4 + |val|) == val && Drop(rest, 4 + PaddedLen(|val|)) == more
  {
    var rest, head, len := Tlv(t, val, padding) + more, Pack16(t), Pack16(|val|);
    assert rest[0] == head[0] && rest[1] == head[1] && rest[2] == len[0] && rest[3] == len[1];
    Unpack16InvertsPack16(t);
    Unpack16InvertsPack16(|val|);
    assert rest[4..4 + |val|] == val;
    assert rest[4 + PaddedLen(|val|)..] == more;
  }

  /** Type, length and value read back as they were written, and the walk goes on right behind the padding. */
  lemma {:induction false} WalkTlv(t: nat, val: seq<byte>, padding: seq<byte>, more: seq<byte>, f: Found, g: Found)
    requires t < 0x1_0000 && |val| < 0x1_0000 && |val| + |padding| == PaddedLen(|val|)
    requires Note(t, |val|, val, f) == Walk(g)
    ensures WalkFrom(Tlv(t, val, padding) + more, f) == WalkFrom(more, g)
  {
    FieldsOfTlv(t, val, padding, more);
  }

  lemma {:induction false} PlainReadsBack(x: Address)
    requires x.Valid()
    ensures ReadAddress(Mapped(x).Value(), false) == Some(x)
  {
    assert Mapped(x).Value()[4..8] == x.ip;
  }

  lemma PortReadsBack(port: nat)
    requires port < 0x1_0000
    ensures XorPort(XorPort(port)) == port
    ensures var two := Pack16(XorPort(port)); Unpack16(two[0], two[1]) == XorPort(port)
  {
    XorWidths(port, MAGIC_HIGH);
    Unpack16InvertsPack16(XorPort(port));
  }

  lemma {:induction false} XoredReadsBack(x: Address)
    requires x.Valid()
    ensures ReadAddress(XorMapped(x).Value(), true) == Some(x)
  {
    var val, two, ip := XorMapped(x).Value(), Pack16(XorPort(x.port)), XorBytes(x.ip, MAGIC);
    assert val[2] == two[0] && val[3] == two[1] && val[4..8] == ip;
    XorBytesTwice(x.ip, MAGIC);
    PortReadsBack(x.port);
  }

  /** An encoded attribute has exactly the effect its content calls for. */
  lemma {:induction false} NoteOfEncoded(a: Attribute, f: Found)
    requires a.Valid()
    ensures Note(a.Type(), |a.Value()|, a.Value(), f) == Walk(Noted(a, f))
    ensures |a.Value()| < 0x1_0000 && |a.Value()| + |a.Padding()| == PaddedLen(|a.Value()|)
  {
    if a.Mapped? { PlainReadsBack(a.address); }
    if a.XorMapped? { XoredReadsBack(a.address); }
  }

  function NotedAll(attrs: seq<Attribute>, f: Found): Found {
    if attrs == [] then f else NotedAll(attrs[1..], Noted(attrs[0], f))
  }

  /** Walking encoded attributes, whatever follows them. */
  lemma {:induction false} WalkOfEncoded(attrs: seq<Attribute>, tail: seq<byte>, f: Found)
    requires AllValid(attrs)
    ensures WalkFrom(EncodeAll(attrs) + tail, f) == WalkFrom(tail, NotedAll(attrs, f))
    decreases |attrs|
  {
    if attrs == [] {
      assert EncodeAll(attrs) + tail == tail;
    } else {
      var a, more := attrs[0], EncodeAll(attrs[1..]) + tail;
      assert EncodeAll(attrs) + tail == Tlv(a.Type(), a.Value(), a.Padding()) + more;
      NoteOfEncoded(a, f);
      WalkTlv(a.Type(), a.Value(), a.Padding(), more, f, Noted(a, f));
      WalkOfEncoded(attrs[1..], tail, Noted(a, f));
    }
  }

  /** Noting the attributes front to back leaves the last one of each kind. */
  lemma {:induction false} NotedAllKeepsLast(attrs: seq<Attribute>, f: Found)
    ensures NotedAll(attrs, f).mapped == (if LastMapped(attrs).Some? then LastMapped(attrs) else f.mapped)
    ensures NotedAll(attrs, f).xor == (if LastXorMapped(attrs).Some? then LastXorMapped(attrs) else f.xor)
  {
    if attrs == [] {
    } else {
      NotedAllKeepsLast(attrs[1..], Noted(attrs[0], f));
      LastOfCons(attrs);
    }
  }

  lemma {:induction false} LastOfCons(attrs: seq<Attribute>)
    requires attrs != []
    ensures LastMapped(attrs) == (if LastMapped(attrs[1..]).Some? then LastMapped(attrs[1..])
                                  else if attrs[0].Mapped? then Some(attrs[0].address) else None)
    ensures LastXorMapped(attrs) == (if LastXorMapped(attrs[1..]).Some? then LastXorMapped(attrs[1..])
                                     else if attrs[0].XorMapped? then Some(attrs[0].address) else None)
  {
    var n := |attrs| - 1;
    if n > 0 {
      LastOfCons(attrs[..n]);
      assert attrs[..n][1..] == attrs[1..][..n - 1];
    } else {
      assert attrs[..0] == [] && attrs[1..] == [];
    }
  }

  /**
   The round trip: from any response with IPv4 address attributes and any other attributes in any order, the
   parser returns the last XOR-MAPPED-ADDRESS as it was encoded, or else the last MAPPED-ADDRESS, or nothing.
   */
  lemma {:induction false} ParseInvertsEncode(len: nat, tid: seq<byte>, attrs: seq<Attribute>, tail: seq<byte>)
    requires len < 0x1_0000 && |tid| == 12 && AllValid(attrs) && |tail| < 4
    ensures Parse(EncodeResponse(len, tid, attrs, tail))
         == Answer(if LastXorMapped(attrs).Some? then LastXorMapped(attrs) else LastMapped(attrs))
  {
    var data := EncodeResponse(len, tid, attrs, tail);
    var body := EncodeAll(attrs) + tail;
    assert data[20..] == body;
    assert IsSuccessResponse(data);
    var f := Found(None, None);
    WalkOfEncoded(attrs, tail, f);
    NotedAllKeepsLast(attrs, f);
  }

  // ----- Responses byte by byte -----

  /** A response with one attribute of type `kind`, announced as `alen` bytes long, as it comes over the wire. */
  function OneAttribute(len: nat, tid: seq<byte>, kind: byte, alen: byte, val: seq<byte>): seq<byte>
    requires len < 0x1_0000
  {
    [1, 1, (len / 256) as byte, (len % 256) as byte, 0x21, 0x12, 0xA4, 0x42] + tid + [0, kind, 0, alen] + val
  }

  function Body(kind: byte, alen: byte, val: seq<byte>): seq<byte> { [0, kind, 0, alen] + val }

  lemma OneAttributeIs(len: nat, tid: seq<byte>, kind: byte, alen: byte, val: seq<byte>)
    requires len < 0x1_0000 && |tid| == 12
    ensures var data := OneAttribute(len, tid, kind, alen, val);
      IsSuccessResponse(data) && data[20..] == Body(kind, alen, val)
  {
  }

  lemma WalkOne(kind: byte, alen: byte, val: seq<byte>, got: seq<byte>, f: Found)
    requires |val| <= PaddedLen(alen as nat)
    requires got == if |val| < alen as nat then val else val[..alen as nat]
    ensures WalkFrom(Body(kind, alen, val), f) == Note(kind as nat, alen as nat, got, f)
  {
    var body, n := Body(kind, alen, val), alen as nat;
    assert Slice(body, 4, 4 + n) == got;
    assert Drop(body, 4 + PaddedLen(n)) == [];
    WalkStep(body, kind as nat, n, f, Note(kind as nat, n, got, f));
  }

  lemma ParseOne(len: nat, tid: seq<byte>, kind: byte, alen: byte, val: seq<byte>, got: seq<byte>)
    requires len < 0x1_0000 && |tid| == 12 && |val| <= PaddedLen(alen as nat)
    requires got == if |val| < alen as nat then val else val[..alen as nat]
    ensures Parse(OneAttribute(len, tid, kind, alen, val))
         == match Note(kind as nat, alen as nat, got, Found(None, None))
            case Fault => Raised
            case Walk(f) => Answer(Pick(f))
  {
    OneAttributeIs(len, tid, kind, alen, val);
    WalkOne(kind, alen, val, got, Found(None, None));
  }

  lemma ReadsPlain(val: seq<byte>)
    requires |val| == 8
    ensures ReadAddress(val, false)
         == Some(Address([val[4], val[5], val[6], val[7]], 256 * (val[2] as nat) + val[3] as nat))
  {
    assert val[4..8] == [val[4], val[5], val[6], val[7]];
  }

  /** A MAPPED-ADDRESS of eight bytes is answered as it stands, the port most significant byte first. */
  lemma {:induction false} OneMappedAddress(len: nat, tid: seq<byte>, val: seq<byte>)
    requires len < 0x1_0000 && |tid| == 12 && |val| == 8
    ensures Parse(OneAttribute(len, tid, 0x01, 8, val))
         == Answer(Some(Address([val[4], val[5], val[6], val[7]], 256 * (val[2] as nat) + val[3] as nat)))
  {
    assert val[..8] == val;
    ParseOne(len, tid, 0x01, 8, val, val);
    ReadsPlain(val);
  }

  /** `a` differs from the bytes of `val` in exactly the bits of the magic cookie. */
  predicate Unscrambled(a: Address, val: seq<byte>)
    requires |val| == 8
  {
    && a.port < 0x1_0000 && DifferWhere(a.port, 256 * (val[2] as nat) + val[3] as nat, 0x2112, 16)
    && |a.ip| == 4
    && DifferWhere(a.ip[0] as nat, val[4] as nat, 0x21, 8) && DifferWhere(a.ip[1] as nat, val[5] as nat, 0x12, 8)
    && DifferWhere(a.ip[2] as nat, val[6] as nat, 0xA4, 8) && DifferWhere(a.ip[3] as nat, val[7] as nat, 0x42, 8)
  }

  lemma ReadsUnscrambled(val: seq<byte>)
    requires |val| == 8
    ensures var r := ReadAddress(val, true); r.Some? && Unscrambled(r.value, val)
  {
    var ip, port := val[4..8], Unpack16(val[2], val[3]);
    XorDiffers(port, 0x2112, 16);
    forall k | 0 <= k < 4 ensures DifferWhere(XorBytes(ip, MAGIC)[k] as nat, ip[k] as nat, MAGIC[k] as nat, 8) {
      XorBytesAt(ip, MAGIC, k);
    }
  }

  /**
   The answer to an XOR-MAPPED-ADDRESS differs from its bytes in exactly the bits of the magic cookie: the port in those
   of 0x2112, the address in those of the bytes 21 12 A4 42.
   */
  lemma {:induction false} OneXorMappedAddress(len: nat, tid: seq<byte>, val: seq<byte>)
    requires len < 0x1_0000 && |tid| == 12 && |val| == 8
    ensures var r := Parse(OneAttribute(len, tid, 0x20, 8, val));
      r.Answer? && r.address.Some? && Unscrambled(r.address.value, val)
  {
    assert val[..8] == val;
    ParseOne(len, tid, 0x20, 8, val, val);
    ReadsUnscrambled(val);
  }

  lemma {:induction false} XorBytesAt(a: seq<byte>, b: seq<byte>, k: nat)
    requires k < |a| && k < |b|
    ensures DifferWhere(XorBytes(a, b)[k] as nat, a[k] as nat, b[k] as nat, 8)
  {
    if k == 0 {
      XorDiffers(a[0] as nat, b[0] as nat, 8);
    } else {
      XorBytesAt(a[1..], b[1..], k - 1);
    }
  }

  /** Two numbers of `n` bits with the same bits are the same, so the answer is given by these bits. */
  lemma {:induction false} BitsDecide(x: nat, y: nat, n: nat)
    requires x < Pow2(n) && y < Pow2(n) && forall i | 0 <= i < n :: HasBit(x, i) <==> HasBit(y, i)
    ensures x == y
  {
    if n == 0 {
    } else {
      forall i | 0 <= i < n - 1 ensures HasBit(x / 2, i) <==> HasBit(y / 2, i) {
        assert HasBit(x, i + 1) <==> HasBit(y, i + 1);
      }
      BitsDecide(x / 2, y / 2, n - 1);
      assert HasBit(x, 0) <==> HasBit(y, 0);
    }
  }

  /** An address attribute announced as shorter than eight bytes is skipped; one cut off by the end raises. */
  lemma {:induction false} ShortAddresses(len: nat, tid: seq<byte>, xored: bool, alen: byte, val: seq<byte>)
    requires len < 0x1_0000 && |tid| == 12 && |val| < 8 && |val| <= alen as nat
    ensures Parse(OneAttribute(len, tid, if xored then 0x20 else 0x01, alen, val))
         == if alen < 8 then Answer(None) else Raised
  {
    assert |val| == alen as nat ==> val[..alen as nat] == val;
    ParseOne(len, tid, if xored then 0x20 else 0x01, alen, val, val);
  }

  /** Anything that is no Binding Success Response with the cookie in place is answered with nothing. */
  lemma OtherMessages(data: seq<byte>)
    requires |data| < 20 || data[0] != 1 || data[1] != 1
             || data[4] != 0x21 || data[5] != 0x12 || data[6] != 0xA4 || data[7] != 0x42
    ensures Parse(data) == Answer(None)
  {
    assert |data| >= 20 ==> data[0..2][0] == data[0] && data[0..2][1] == data[1];
    assert |data| >= 20 ==> forall i | 0 <= i < 4 :: data[4..8][i] == data[4 + i];
    assert Pack16(0x0101)[0] == 1 && Pack16(0x0101)[1] == 1;
    assert MAGIC[0] == 0x21 && MAGIC[1] == 0x12 && MAGIC[2] == 0xA4 && MAGIC[3] == 0x42;
  }

  // ----- The request -----

  /** struct.pack("!HHI", 0x0001, 0, MAGIC) + tid */
  function MakeRequest(tid: seq<byte>): seq<byte> { Pack16(0x0001) + Pack16(0) + MAGIC + tid }

  /** A request is a bare 20-byte header that carries its transaction id, and is never taken for a response. */
  lemma RequestIsNotAResponse(tid: seq<byte>)
    requires |tid| == 12
    ensures |MakeRequest(tid)| == 20 && MakeRequest(tid)[8..] == tid
    ensures Parse(MakeRequest(tid)) == Answer(None)
  {
    assert MakeRequest(tid)[0..2][1] == 0x01 && MakeRequest(tid)[0..2][0] == 0x00;
    assert Pack16(0x0101)[0] == 0x01;
  }
}
