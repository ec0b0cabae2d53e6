/**
 The subset of RFC 6455 spoken between relay and agent: framing (section 5.2), masking
 (section 5.3), fragmentation (section 5.4) and control frames (section 5.5).

 This is the wire format as functions on byte strings, printer and parser, and that they
 undo each other.
*/
module WebSocket {
  import opened Common

  type Bytes = seq<bv8>

  type Mask = m: Bytes | |m| == 4 witness [0, 0, 0, 0]

  datatype Role = Server | Client

  datatype Frame = Frame(fin: bool, opcode: bv8, payload: Bytes)

  datatype Error = EndOfStream | ProtocolError | TooLarge | ControlTooLarge | PeerClosed | WriteFailed

  function Opposite(role: Role): Role {
    if role.Server? then Client else Server
  }

  // ---------------------------------------------------------------- integers on the wire

  const TWO63: nat := 0x8000_0000_0000_0000

  function Pow256(width: nat): nat {
    if width == 0 then 1 else 256 * Pow256(width - 1)
  }

  /** The low `width` bytes of `n`, most significant first. */
  function BigEndian(n: nat, width: nat): (b: Bytes)
    ensures |b| == width
  {
    if width == 0 then [] else BigEndian(n / 256, width - 1) + [(n % 256) as bv8]
  }

  function FromBigEndian(b: Bytes): nat {
    if b == [] then 0 else FromBigEndian(b[..|b| - 1]) * 256 + b[|b| - 1] as int
  }

  lemma {:induction false} ByteOf(x: nat) returns (b: bv8)
    requires x < 256
    ensures b as int == x
  {
    if x == 0 {
      b := 0;
    } else {
      var c := ByteOf(x - 1);
      assert c != 255;
      b := c + 1;
      NextByte(c);
    }
  }

  lemma NextByte(b: bv8)
    requires b != 255
    ensures (b + 1) as int == b as int + 1
  {
  }

  lemma ByteRoundTrip(x: nat)
    requires x < 256
    ensures (x as bv8) as int == x
  {
    var b := ByteOf(x);
    assert (b as int) as bv8 == b;
  }

  lemma {:induction false} BigEndianRoundTrip(n: nat, width: nat)
    requires n < Pow256(width)
    ensures FromBigEndian(BigEndian(n, width)) == n
  {
    if width > 0 {
      var q, d := n / 256, n % 256;
      assert q < Pow256(width - 1);
      BigEndianRoundTrip(q, width - 1);
      ByteRoundTrip(d);
      var front := BigEndian(q, width - 1);
      assert (front + [d as bv8])[..width - 1] == front;
    }
  }

  /** A number taken apart at its last byte. */
  lemma LastByte(q: nat, last: bv8)
    ensures (q * 256 + last as int) / 256 == q && ((q * 256 + last as int) % 256) as bv8 == last
  {
    var n, d := q * 256 + last as int, last as int;
    assert n / 256 == q && n % 256 == d;
    assert d as bv8 == last;
  }

  lemma PowStep(width: nat)
    requires width > 0
    ensures Pow256(width) == 256 * Pow256(width - 1)
  {
  }

  lemma BigEndianLast(n: nat, width: nat)
    requires width > 0
    ensures BigEndian(n, width) == BigEndian(n / 256, width - 1) + [(n % 256) as bv8]
  {
  }

  lemma OctetBelow(q: nat, last: bv8, p: nat)
    requires q < p
    ensures q * 256 + last as int < 256 * p
  {
  }

  lemma {:induction false} FromBigEndianRoundTrip(b: Bytes)
    ensures FromBigEndian(b) < Pow256(|b|)
    ensures BigEndian(FromBigEndian(b), |b|) == b
  {
    if b != [] {
      var front, last := b[..|b| - 1], b[|b| - 1];
      FromBigEndianRoundTrip(front);
      assert FromBigEndian(b) == FromBigEndian(front) * 256 + last as int;
      hide *;
      PowStep(|b|);
      OctetBelow(FromBigEndian(front), last, Pow256(|b| - 1));
      LastByte(FromBigEndian(front), last);
      BigEndianLast(FromBigEndian(b), |b|);
      assert b == front + [last];
    }
  }

  // ---------------------------------------------------------------- encoding

  function Masked(payload: Bytes, mask: Mask): (r: Bytes)
    ensures |r| == |payload|
  {
    seq(|payload|, i requires 0 <= i < |payload| => payload[i] ^ mask[i % 4])
  }

  /** Masking twice with the same key gives the payload back. */
  lemma MaskedTwice(payload: Bytes, mask: Mask)
    ensures Masked(Masked(payload, mask), mask) == payload
  {
    forall i | 0 <= i < |payload| ensures Masked(Masked(payload, mask), mask)[i] == payload[i] {
      var a, m := payload[i], mask[i % 4];
      assert (a ^ m) ^ m == a;
    }
  }

  /** The seven-bit length and the extension it announces: always the shortest form. */
  function LengthTag(n: nat): (r: bv8)
    ensures r <= 127
  {
    if n < 126 then n as bv8 else if n <= 65535 then 126 else 127
  }

  function LengthExtension(n: nat): Bytes {
    if n < 126 then [] else if n <= 65535 then BigEndian(n, 2) else BigEndian(n, 8)
  }

  function FirstByte(fin: bool, opcode: bv8): bv8 {
    (if fin then 0x80 else 0) | opcode
  }

  function MaskBit(sender: Role): bv8 {
    if sender.Client? then 0x80 else 0
  }

  function Header(sender: Role, fin: bool, opcode: bv8, n: nat, mask: Mask): Bytes {
    [FirstByte(fin, opcode), MaskBit(sender) | LengthTag(n)]
    + LengthExtension(n)
    + (if sender.Client? then mask else [])
  }

  /** The frame as `sender` puts it on the wire; the key is used by clients only. */
  function Encode(sender: Role, f: Frame, mask: Mask): Bytes {
    Header(sender, f.fin, f.opcode, |f.payload|, mask) + (if sender.Client? then Masked(f.payload, mask) else f.payload)
  }

  // ---------------------------------------------------------------- decoding

  /** The length announced by `tag`, refusing every longer-than-needed form. */
  function ParseLength(tag: bv8, s: Bytes): (r: Result<(nat, Bytes), Error>)
    ensures r.Ok? ==> |r.value.1| <= |s|
  {
    if tag == 126 then
      if |s| < 2 then Err(EndOfStream)
      else if FromBigEndian(s[..2]) < 126 then Err(ProtocolError)
      else Ok((FromBigEndian(s[..2]), s[2..]))
    else if tag == 127 then
      if |s| < 8 then Err(EndOfStream)
      else if FromBigEndian(s[..8]) >= TWO63 || FromBigEndian(s[..8]) < 65536 then Err(ProtocolError)
      else Ok((FromBigEndian(s[..8]), s[8..]))
    else Ok((tag as int, s))
  }

  /** The masking key, if any, and the payload. */
  function ParseBody(masked: bool, n: nat, s: Bytes): (r: Result<(Bytes, Bytes), Error>)
    ensures r.Ok? ==> |r.value.1| <= |s|
  {
    if masked then
      if |s| < 4 + n then Err(EndOfStream) else Ok((Masked(s[4..4 + n], s[..4]), s[4 + n..]))
    else
      if |s| < n then Err(EndOfStream) else Ok((s[..n], s[n..]))
  }

  /** Everything after the first two bytes. */
  function ParseTail(role: Role, max: nat, fin: bool, opcode: bv8, tag: bv8, s: Bytes)
    : (r: Result<(Frame, Bytes), Error>)
    ensures r.Ok? ==> |r.value.1| <= |s|
  {
    match ParseLength(tag, s)
    case Err(e) => Err(e)
    case Ok((n, rest)) =>
      if opcode >= 8 && (!fin || n > 125) then Err(ProtocolError)
      else if n > max then Err(TooLarge)
      else
        match ParseBody(role.Server?, n, rest)
        case Err(e) => Err(e)
        case Ok((payload, tail)) => Ok((Frame(fin, opcode, payload), tail))
  }

  /** The first two bytes: final flag, opcode and seven-bit length, with the checks that come before the length. */
  function ParseHead(role: Role, s: Bytes): (r: Result<(bool, bv8, bv8), Error>)
    ensures r.Ok? ==> |s| >= 2
  {
    if |s| < 1 then Err(EndOfStream)
    else if s[0] & 0x70 != 0 then Err(ProtocolError)
    else if |s| < 2 then Err(EndOfStream)
    else if role.Server? != (s[1] & 0x80 != 0) then Err(ProtocolError)
    else Ok((s[0] & 0x80 != 0, s[0] & 0x0f, s[1] & 0x7f))
  }

  /** `readFrame` of a peer in `role` with message limit `max`: the frame and the unread rest. */
  function Parse(role: Role, max: nat, s: Bytes): (r: Result<(Frame, Bytes), Error>)
    ensures r.Ok? ==> |r.value.1| < |s|
  {
    match ParseHead(role, s)
    case Err(e) => Err(e)
    case Ok((fin, opcode, tag)) => ParseTail(role, max, fin, opcode, tag, s[2..])
  }

  // ---------------------------------------------------------------- printer and parser undo each other

  /** Frames a peer may send: a four-bit opcode, and control frames whole and short. */
  predicate Sendable(f: Frame) {
    f.opcode < 16 && |f.payload| < TWO63 && (f.opcode >= 8 ==> f.fin && |f.payload| <= 125)
  }

  lemma Pow256Values()
    ensures Pow256(2) == 65536 && Pow256(8) == 2 * TWO63
  {
    assert Pow256(1) == 256 && Pow256(2) == 65536 && Pow256(3) == 16777216 && Pow256(4) == 4294967296;
    assert Pow256(5) == 1099511627776 && Pow256(6) == 281474976710656 && Pow256(7) == 72057594037927936;
  }

  lemma LengthRoundTrip(n: nat, rest: Bytes)
    requires n < TWO63
    ensures ParseLength(LengthTag(n), LengthExtension(n) + rest) == Ok((n, rest))
  {
    Pow256Values();
    var s := LengthExtension(n) + rest;
    if 126 <= n <= 65535 {
      BigEndianRoundTrip(n, 2);
      assert s[..2] == BigEndian(n, 2) && s[2..] == rest;
    } else if n > 65535 {
      BigEndianRoundTrip(n, 8);
      assert s[..8] == BigEndian(n, 8) && s[8..] == rest;
    } else {
      assert s == rest;
      ByteRoundTrip(n);
    }
  }

  lemma LengthIsCanonical(tag: bv8, s: Bytes)
    requires tag <= 127 && ParseLength(tag, s).Ok?
    ensures var (n, rest) := ParseLength(tag, s).value;
            n < TWO63 && tag == LengthTag(n) && s == LengthExtension(n) + rest
  {
    Pow256Values();
    if tag == 126 {
      FromBigEndianRoundTrip(s[..2]);
      assert s == s[..2] + s[2..];
    } else if tag == 127 {
      FromBigEndianRoundTrip(s[..8]);
      assert s == s[..8] + s[8..];
    } else {
      assert (tag as int) as bv8 == tag;
      assert [] + s == s;
    }
  }

  lemma HeaderBits(fin: bool, opcode: bv8, sender: Role, tag: bv8)
    requires opcode < 16 && tag <= 127
    ensures var a := FirstByte(fin, opcode);
            a & 0x70 == 0 && (a & 0x80 != 0) == fin && a & 0x0f == opcode
    ensures var b := MaskBit(sender) | tag;
            (b & 0x80 != 0) == sender.Client? && b & 0x7f == tag
  {
    assert 0x80 | opcode == 0x80 + opcode && (0x80 | tag) & 0x7f == tag;
  }

  lemma HeaderBitsInverse(a: bv8, b: bv8)
    requires a & 0x70 == 0
    ensures a & 0x0f < 16 && b & 0x7f <= 127
    ensures a == FirstByte(a & 0x80 != 0, a & 0x0f)
    ensures b == (if b & 0x80 != 0 then 0x80 else 0) | (b & 0x7f)
  {
  }

  /** What follows the length: the key of a client and the payload as sent. */
  function Body(sender: Role, payload: Bytes, mask: Mask): Bytes {
    if sender.Client? then mask + Masked(payload, mask) else payload
  }

  lemma EncodeShape(sender: Role, f: Frame, mask: Mask, rest: Bytes)
    ensures Encode(sender, f, mask) + rest ==
            [FirstByte(f.fin, f.opcode), MaskBit(sender) | LengthTag(|f.payload|)]
            + (LengthExtension(|f.payload|) + (Body(sender, f.payload, mask) + rest))
  {
  }

  lemma BodyRoundTrip(sender: Role, payload: Bytes, mask: Mask, rest: Bytes)
    ensures ParseBody(sender.Client?, |payload|, Body(sender, payload, mask) + rest) == Ok((payload, rest))
  {
    var n, s := |payload|, Body(sender, payload, mask) + rest;
    if sender.Client? {
      assert s[..4] == mask && s[4..4 + n] == Masked(payload, mask) && s[4 + n..] == rest;
      MaskedTwice(payload, mask);
    } else {
      assert s[..n] == payload && s[n..] == rest;
    }
  }

  lemma TailRoundTrip(sender: Role, f: Frame, mask: Mask, max: nat, rest: Bytes)
    requires Sendable(f) && |f.payload| <= max
    ensures ParseTail(Opposite(sender), max, f.fin, f.opcode, LengthTag(|f.payload|),
                      LengthExtension(|f.payload|) + (Body(sender, f.payload, mask) + rest)) == Ok((f, rest))
  {
    hide ParseLength, ParseBody, LengthExtension, LengthTag, Body;
    LengthRoundTrip(|f.payload|, Body(sender, f.payload, mask) + rest);
    BodyRoundTrip(sender, f.payload, mask, rest);
  }

  /** The two first bytes are read as they were written. */
  lemma HeadRoundTrip(sender: Role, max: nat, fin: bool, opcode: bv8, tag: bv8, tail: Bytes)
    requires opcode < 16 && tag <= 127
    ensures Parse(Opposite(sender), max, [FirstByte(fin, opcode), MaskBit(sender) | tag] + tail)
            == ParseTail(Opposite(sender), max, fin, opcode, tag, tail)
  {
    hide Parse, ParseTail, FirstByte, MaskBit;
    HeaderBits(fin, opcode, sender, tag);
    ParseFromBytes(Opposite(sender), max, FirstByte(fin, opcode), MaskBit(sender) | tag, tail);
  }

  /** What one peer writes the other reads, leaving the rest of the stream untouched. */
  lemma ParseEncode(sender: Role, f: Frame, mask: Mask, max: nat, rest: Bytes)
    requires Sendable(f) && |f.payload| <= max
    ensures Parse(Opposite(sender), max, Encode(sender, f, mask) + rest) == Ok((f, rest))
  {
    assert f.opcode < 16;
    hide *;
    var n := |f.payload|;
    TailRoundTrip(sender, f, mask, max, rest);
    EncodeShape(sender, f, mask, rest);
    HeadRoundTrip(sender, max, f.fin, f.opcode, LengthTag(n),
                  LengthExtension(n) + (Body(sender, f.payload, mask) + rest));
  }

  lemma ParseFromBytes(role: Role, max: nat, a: bv8, b: bv8, tail: Bytes)
    requires a & 0x70 == 0 && role.Server? == (b & 0x80 != 0)
    ensures Parse(role, max, [a, b] + tail) == ParseTail(role, max, a & 0x80 != 0, a & 0x0f, b & 0x7f, tail)
  {
    assert ([a, b] + tail)[2..] == tail;
  }

  /** Every body that parses is the body of what it was parsed as. */
  lemma BodyInverse(role: Role, n: nat, s: Bytes) returns (key: Mask)
    requires ParseBody(role.Server?, n, s).Ok?
    ensures var (payload, rest) := ParseBody(role.Server?, n, s).value;
            |payload| == n && s == Body(Opposite(role), payload, key) + rest
  {
    var (payload, rest) := ParseBody(role.Server?, n, s).value;
    if role.Server? {
      key := s[..4];
      MaskedTwice(s[4..4 + n], key);
      assert s == s[..4] + s[4..4 + n] + s[4 + n..];
    } else {
      key := [0, 0, 0, 0];
      assert s == s[..n] + s[n..];
    }
  }

  lemma SplitHeader(s: Bytes)
    requires |s| >= 2
    ensures s == [s[0], s[1]] + s[2..]
  {
  }

  lemma TailInverse(role: Role, max: nat, fin: bool, opcode: bv8, tag: bv8, s: Bytes) returns (key: Mask)
    requires opcode < 16 && tag <= 127 && ParseTail(role, max, fin, opcode, tag, s).Ok?
    ensures var (f, rest) := ParseTail(role, max, fin, opcode, tag, s).value;
            && Sendable(f) && |f.payload| <= max && f.fin == fin && f.opcode == opcode && tag == LengthTag(|f.payload|)
            && s == LengthExtension(|f.payload|) + (Body(Opposite(role), f.payload, key) + rest)
  {
    hide ParseLength, ParseBody, LengthExtension, LengthTag, Body;
    LengthIsCanonical(tag, s);
    var (n, tail) := ParseLength(tag, s).value;
    key := BodyInverse(role, n, tail);
  }

  lemma EncodeFromParts(sender: Role, f: Frame, key: Mask, rest: Bytes, s: Bytes)
    requires |s| >= 2 && s[0] == FirstByte(f.fin, f.opcode) && s[1] == MaskBit(sender) | LengthTag(|f.payload|)
    requires s[2..] == LengthExtension(|f.payload|) + (Body(sender, f.payload, key) + rest)
    ensures s == Encode(sender, f, key) + rest
  {
    hide *;
    SplitHeader(s);
    EncodeShape(sender, f, key, rest);
  }

  lemma ParseSplits(role: Role, max: nat, s: Bytes) returns (fin: bool, opcode: bv8, tag: bv8)
    requires Parse(role, max, s).Ok?
    ensures |s| >= 2 && opcode < 16 && tag <= 127
    ensures s[0] == FirstByte(fin, opcode) && s[1] == MaskBit(Opposite(role)) | tag
    ensures Parse(role, max, s) == ParseTail(role, max, fin, opcode, tag, s[2..])
  {
    hide ParseTail;
    HeaderBitsInverse(s[0], s[1]);
    fin, opcode, tag := s[0] & 0x80 != 0, s[0] & 0x0f, s[1] & 0x7f;
  }

  /** Every accepted byte string is the one shortest encoding of the frame it was read as. */
  lemma EncodeParse(role: Role, max: nat, s: Bytes) returns (key: Mask)
    requires Parse(role, max, s).Ok?
    ensures var (f, rest) := Parse(role, max, s).value;
            Sendable(f) && |f.payload| <= max && s == Encode(Opposite(role), f, key) + rest
  {
    hide *;
    var fin, opcode, tag := ParseSplits(role, max, s);
    key := TailInverse(role, max, fin, opcode, tag, s[2..]);
    var (f, rest) := Parse(role, max, s).value;
    EncodeFromParts(Opposite(role), f, key, rest, s);
  }

  /** A frame already complete is read the same whatever follows it. */
  lemma ParseExtends(role: Role, max: nat, s: Bytes, more: Bytes)
    requires Parse(role, max, s).Ok?
    ensures Parse(role, max, s + more) == Ok((Parse(role, max, s).value.0, Parse(role, max, s).value.1 + more))
  {
    hide Parse, Encode;
    var (f, rest) := Parse(role, max, s).value;
    var key := EncodeParse(role, max, s);
    assert s + more == Encode(Opposite(role), f, key) + (rest + more);
    ParseEncode(Opposite(role), f, key, max, rest + more);
  }

  /** No proper prefix of an encoded frame is ever taken for a frame. */
  lemma NoFrameInPrefix(sender: Role, f: Frame, mask: Mask, max: nat, cut: nat)
    requires Sendable(f) && |f.payload| <= max && cut < |Encode(sender, f, mask)|
    ensures Parse(Opposite(sender), max, Encode(sender, f, mask)[..cut]).Err?
  {
    hide Parse, Encode;
    var whole := Encode(sender, f, mask);
    var p, t := whole[..cut], whole[cut..];
    if Parse(Opposite(sender), max, p).Ok? {
      ParseExtends(Opposite(sender), max, p, t);
      assert p + t == whole && whole + [] == whole;
      ParseEncode(sender, f, mask, max, []);
    }
  }

  // ---------------------------------------------------------------- the octets

  /** The value of these octets, the first one the most significant. */
  function Value(b: Bytes): nat {
    if b == [] then 0 else b[0] as int * Pow256(|b| - 1) + Value(b[1..])
  }

  /** The first two octets: final bit, three zero bits and opcode; mask bit and seven-bit length. */
  predicate StartsWire(first: bv8, second: bv8, sender: Role, f: Frame) {
    var n := |f.payload|;
    && (first & 0x80 != 0) == f.fin && first & 0x70 == 0 && first & 0x0f == f.opcode
    && (second & 0x80 != 0) == sender.Client?
    && (second & 0x7f) as int == (if n < 126 then n else if n < 65536 then 126 else 127)
  }

  /**
   These octets are this frame as `sender` writes it, octet by octet as in section 5.2 of RFC
   6455: the first two; the octets of a longer length, high octet first and in the shortest
   form; the key; and payload octet i xor key octet i mod 4.
   */
  predicate IsWire(w: Bytes, sender: Role, f: Frame, key: Mask) {
    var n, masked := |f.payload|, sender.Client?;
    var extra := if n < 126 then 0 else if n < 65536 then 2 else 8;
    var start := 2 + extra + (if masked then 4 else 0);
    && |w| == start + n && StartsWire(w[0], w[1], sender, f)
    && (extra > 0 ==> Value(w[2..2 + extra]) == n)
    && (masked ==> w[2 + extra..start] == key)
    && (forall i :: 0 <= i < n ==> w[start + i] == if masked then f.payload[i] ^ key[i % 4] else f.payload[i])
  }

  lemma HighOctet(d: nat, p: nat)
    ensures d * (256 * p) == 256 * (d * p)
  {
  }

  lemma ValueStep(first: bv8, rest: Bytes)
    ensures Value([first] + rest) == first as int * Pow256(|rest|) + Value(rest)
  {
    hide Pow256;
    var w := [first] + rest;
    assert w[0] == first && w[1..] == rest && |w| - 1 == |rest|;
    assert Value(w) == w[0] as int * Pow256(|w| - 1) + Value(w[1..]);
    hide Value;
  }

  lemma {:induction false} ValueSnoc(b: Bytes, last: bv8)
    ensures Value(b + [last]) == Value(b) * 256 + last as int
    decreases |b|
  {
    if b == [] {
      ValueStep(last, []);
      assert Pow256(0) == 1 && [last] + [] == [last] == [] + [last] && Value([]) == 0;
    } else {
      var first, rest := b[0], b[1..];
      ValueSnoc(rest, last);
      hide Value, Pow256;
      assert b == [first] + rest && b + [last] == [first] + (rest + [last]);
      ValueStep(first, rest);
      ValueStep(first, rest + [last]);
      PowStep(|rest| + 1);
      HighOctet(first as int, Pow256(|rest|));
    }
  }

  /** Reading the octets from the right gives the same value. */
  lemma {:induction false} ValueIsFromBigEndian(b: Bytes)
    ensures Value(b) == FromBigEndian(b)
    decreases |b|
  {
    if b != [] {
      ValueIsFromBigEndian(b[..|b| - 1]);
      ValueSnoc(b[..|b| - 1], b[|b| - 1]);
      assert b == b[..|b| - 1] + [b[|b| - 1]];
    }
  }

  lemma LengthOctets(n: nat)
    requires n < TWO63
    ensures LengthTag(n) as int == (if n < 126 then n else if n < 65536 then 126 else 127)
    ensures |LengthExtension(n)| == (if n < 126 then 0 else if n < 65536 then 2 else 8)
    ensures n >= 126 ==> Value(LengthExtension(n)) == n
  {
    Pow256Values();
    if n < 126 {
      ByteRoundTrip(n);
    } else {
      var width := if n < 65536 then 2 else 8;
      BigEndianRoundTrip(n, width);
      ValueIsFromBigEndian(BigEndian(n, width));
    }
  }

  lemma BodyOctets(sender: Role, payload: Bytes, key: Mask)
    ensures var body, at := Body(sender, payload, key), if sender.Client? then 4 else 0;
            && |body| == at + |payload| && (sender.Client? ==> body[..4] == key)
            && (forall i :: 0 <= i < |payload| ==>
                  body[at + i] == if sender.Client? then payload[i] ^ key[i % 4] else payload[i])
  {
  }

  lemma EncodeInParts(sender: Role, f: Frame, key: Mask)
    ensures Encode(sender, f, key) ==
            [FirstByte(f.fin, f.opcode), MaskBit(sender) | LengthTag(|f.payload|)]
            + LengthExtension(|f.payload|) + Body(sender, f.payload, key)
  {
    hide LengthTag, LengthExtension, FirstByte, MaskBit, Masked;
  }

  lemma HeadOctets(sender: Role, f: Frame)
    requires f.opcode < 16 && |f.payload| < TWO63
    ensures StartsWire(FirstByte(f.fin, f.opcode), MaskBit(sender) | LengthTag(|f.payload|), sender, f)
  {
    hide LengthTag, FirstByte, MaskBit;
    LengthOctets(|f.payload|);
    HeaderBits(f.fin, f.opcode, sender, LengthTag(|f.payload|));
  }

  /** The octets an encoded frame consists of. */
  lemma EncodeOctets(sender: Role, f: Frame, key: Mask)
    requires Sendable(f)
    ensures IsWire(Encode(sender, f, key), sender, f, key)
  {
    assert f.opcode < 16 && |f.payload| < TWO63;
    hide *;
    LengthOctets(|f.payload|);
    HeadOctets(sender, f);
    BodyOctets(sender, f.payload, key);
    EncodeInParts(sender, f, key);
    Assembled(sender, f, key, FirstByte(f.fin, f.opcode), MaskBit(sender) | LengthTag(|f.payload|),
              LengthExtension(|f.payload|), Body(sender, f.payload, key));
  }

  lemma Assembled(sender: Role, f: Frame, key: Mask, first: bv8, second: bv8, ext: Bytes, body: Bytes)
    requires StartsWire(first, second, sender, f)
    requires var n := |f.payload|;
             |ext| == (if n < 126 then 0 else if n < 65536 then 2 else 8) && (n >= 126 ==> Value(ext) == n)
    requires var at := if sender.Client? then 4 else 0;
             && |body| == at + |f.payload| && (sender.Client? ==> body[..4] == key)
             && (forall i :: 0 <= i < |f.payload| ==>
                   body[at + i] == if sender.Client? then f.payload[i] ^ key[i % 4] else f.payload[i])
    ensures IsWire([first, second] + ext + body, sender, f, key)
  {
    hide Value, StartsWire;
    var w, at := [first, second] + ext + body, if sender.Client? then 4 else 0;
    var start := 2 + |ext| + at;
    assert w[2..2 + |ext|] == ext && w[2 + |ext|..] == body;
    assert at == 4 ==> w[2 + |ext|..start] == body[..4];
    assert w[start..] == body[at..];
    forall i | 0 <= i < |f.payload|
      ensures w[start + i] == if sender.Client? then f.payload[i] ^ key[i % 4] else f.payload[i]
    {
      assert w[start..][i] == w[start + i] && body[at..][i] == body[at + i];
    }
  }

  /** What is accepted begins with exactly the octets of the frame returned. */
  lemma ParseOctets(role: Role, max: nat, s: Bytes) returns (key: Mask)
    requires Parse(role, max, s).Ok?
    ensures var (f, rest) := Parse(role, max, s).value;
            |rest| <= |s| && s[|s| - |rest|..] == rest && IsWire(s[..|s| - |rest|], Opposite(role), f, key)
  {
    hide *;
    key := EncodeParse(role, max, s);
    var (f, rest) := Parse(role, max, s).value;
    EncodeOctets(Opposite(role), f, key);
    var w := Encode(Opposite(role), f, key);
    assert (w + rest)[..|w|] == w && (w + rest)[|w|..] == rest;
  }
}
