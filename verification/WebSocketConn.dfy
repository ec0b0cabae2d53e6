/** The connection object: header buffers, in-place masking and the reassembly loop, against the wire format. */
module WebSocketConn {
  import opened Common
  import opened WebSocket
  import opened WebSocketMessages

  /** The pongs a peer in `role` sends for these pings, with the keys it draws. */
  function PongBytes(role: Role, entropy: nat -> Mask, from: nat, payloads: seq<Bytes>): Bytes
    decreases |payloads|
  {
    if payloads == [] then []
    else PongBytes(role, entropy, from, payloads[..|payloads| - 1])
         + Encode(role, Frame(true, 10, payloads[|payloads| - 1]), entropy(KeysDrawn(role, from, |payloads| - 1)))
  }

  /** Only clients draw masking keys. */
  function KeysDrawn(role: Role, from: nat, frames: nat): nat {
    if role.Client? then from + frames else from
  }

  lemma PongBytesSnoc(role: Role, entropy: nat -> Mask, from: nat, payloads: seq<Bytes>, p: Bytes)
    ensures PongBytes(role, entropy, from, payloads + [p])
            == PongBytes(role, entropy, from, payloads)
               + Encode(role, Frame(true, 10, p), entropy(KeysDrawn(role, from, |payloads|)))
  {
    assert (payloads + [p])[..|payloads|] == payloads;
  }

  /** Fewer pongs are the beginning of more. */
  lemma {:induction false} PongBytesPrefix(role: Role, entropy: nat -> Mask, from: nat, some: seq<Bytes>,
                                           all: seq<Bytes>)
    requires some <= all
    ensures PongBytes(role, entropy, from, some) <= PongBytes(role, entropy, from, all)
    decreases |all|
  {
    hide Encode, KeysDrawn;
    if some != all { PongBytesPrefix(role, entropy, from, some, all[..|all| - 1]); }
  }

  /** What a network that takes `credit` more bytes lets through. */
  function Through(wire: Bytes, credit: nat): Bytes {
    if |wire| <= credit then wire else wire[..credit]
  }

  /** A frame cut off by the network cuts off everything meant to follow it. */
  lemma CutOff(before: Bytes, frame: Bytes, wire: Bytes, credit: nat)
    requires before + frame <= wire && |before| <= credit < |before + frame|
    ensures before + Through(frame, credit - |before|) == Through(wire, credit) && |wire| > credit
  {
    assert wire[..credit] == (before + frame)[..credit];
  }

  lemma PongBytesNone(role: Role, entropy: nat -> Mask, from: nat)
    ensures PongBytes(role, entropy, from, []) == []
  {
  }

  /** A whole frame that was appended to the output, octet by octet. */
  lemma SendableIsWire(role: Role, opcode: bv8, payload: Bytes, key: Mask, before: Bytes, after: Bytes)
    requires after == before + Encode(role, Frame(true, opcode, payload), key) && (opcode >= 8 ==> |payload| <= 125)
    ensures before <= after
    ensures opcode < 16 && |payload| < TWO63 ==> IsWire(after[|before|..], role, Frame(true, opcode, payload), key)
  {
    hide Encode, IsWire;
    assert after[|before|..] == Encode(role, Frame(true, opcode, payload), key);
    if opcode < 16 && |payload| < TWO63 { EncodeOctets(role, Frame(true, opcode, payload), key); }
  }

  /** Each ping is answered by one frame, in order, and a client masks each with its next key. */
  lemma PongOctets(role: Role, entropy: nat -> Mask, from: nat, payloads: seq<Bytes>, k: nat)
    requires k < |payloads| && |payloads[k]| <= 125
    ensures var before := PongBytes(role, entropy, from, payloads[..k]);
            var upTo := PongBytes(role, entropy, from, payloads[..k + 1]);
            && before <= upTo <= PongBytes(role, entropy, from, payloads)
            && IsWire(upTo[|before|..], role, Frame(true, 10, payloads[k]),
                      entropy(if role.Client? then from + k else from))
  {
    assert KeysDrawn(role, from, k) == if role.Client? then from + k else from;
    assert payloads[..k + 1] == payloads[..k] + [payloads[k]];
    hide *;
    PongBytesSnoc(role, entropy, from, payloads[..k], payloads[k]);
    PongBytesPrefix(role, entropy, from, payloads[..k + 1], payloads);
    SendableIsWire(role, 10, payloads[k], entropy(KeysDrawn(role, from, k)),
                   PongBytes(role, entropy, from, payloads[..k]), PongBytes(role, entropy, from, payloads[..k + 1]));
  }

  lemma EncodeParts(sender: Role, opcode: bv8, payload: Bytes, mask: Mask)
    ensures Encode(sender, Frame(true, opcode, payload), mask)
            == [FirstByte(true, opcode), MaskBit(sender) | LengthTag(|payload|)] + LengthExtension(|payload|)
               + (if sender.Client? then mask else []) + (if sender.Client? then Masked(payload, mask) else payload)
  {
    hide LengthTag, LengthExtension, FirstByte, MaskBit, Masked;
  }

  /** Writes `value` into `buffer[at..at + width]`, most significant byte first. */
  method PutBigEndian(buffer: array<bv8>, at: nat, width: nat, value: nat)
    requires at + width <= buffer.Length
    modifies buffer
    ensures buffer[..at] == old(buffer[..at])
    ensures buffer[at..at + width] == BigEndian(value, width)
    ensures value < Pow256(width) ==> Value(buffer[at..at + width]) == value
  {
    var left, n := width, value;
    while left > 0
      invariant 0 <= left <= width
      invariant buffer[..at] == old(buffer[..at])
      invariant BigEndian(value, width) == BigEndian(n, left) + buffer[at + left..at + width]
    {
      left := left - 1;
      ghost var written := buffer[at + left + 1..at + width];
      ghost var front := BigEndian(n / 256, left);
      buffer[at + left] := (n % 256) as bv8;
      assert buffer[at + left + 1..at + width] == written;
      assert buffer[at + left..at + width] == [(n % 256) as bv8] + written;
      assert front + [(n % 256) as bv8] + written == front + ([(n % 256) as bv8] + written);
      n := n / 256;
    }
    if value < Pow256(width) {
      BigEndianRoundTrip(value, width);
      ValueIsFromBigEndian(BigEndian(value, width));
    }
  }

  /** The in-place XOR loop of both directions. */
  method XorInPlace(buffer: array<bv8>, mask: Mask)
    modifies buffer
    ensures forall i :: 0 <= i < buffer.Length ==> buffer[i] == old(buffer[i]) ^ mask[i % 4]
    ensures buffer[..] == Masked(old(buffer[..]), mask)
  {
    ghost var was := buffer[..];
    for i := 0 to buffer.Length
      invariant forall k :: 0 <= k < i ==> buffer[k] == was[k] ^ mask[k % 4]
      invariant forall k :: i <= k < buffer.Length ==> buffer[k] == was[k]
    {
      buffer[i] := buffer[i] ^ mask[i % 4];
    }
  }

  /** Appends the masking key to the used part of the header. */
  method CopyKey(header: array<bv8>, n: nat, mask: Mask)
    requires n + 4 <= header.Length
    modifies header
    ensures header[..n + 4] == old(header[..n]) + mask
  {
    for i := 0 to 4
      invariant header[..n] == old(header[..n])
      invariant header[n..n + i] == mask[..i]
    {
      header[n + i] := mask[i];
      assert header[n..n + i + 1] == header[n..n + i] + [mask[i]];
    }
    assert header[..n + 4] == header[..n] + header[n..n + 4];
  }

  method ArrayOf(s: Bytes) returns (a: array<bv8>)
    ensures fresh(a) && a[..] == s
  {
    a := new bv8[|s|](i requires 0 <= i < |s| => s[i]);
  }

  /** What is left after reading: the end of what was there. */
  ghost predicate Leaves(before: Bytes, after: Bytes) {
    |after| <= |before| && after == before[|before| - |after|..]
  }

  lemma LeavesAll(a: Bytes)
    ensures Leaves(a, a)
  {
  }

  lemma LeavesOn(a: Bytes, b: Bytes, c: Bytes)
    requires Leaves(a, b) && Leaves(b, c)
    ensures Leaves(a, c)
  {
  }

  /** The head, read as the connection reads it: one byte at a time. */
  lemma HeadSteps(role: Role, s: Bytes)
    ensures s == [] ==> ParseHead(role, s) == Err(EndOfStream)
    ensures s != [] && s[0] & 0x70 != 0 ==> ParseHead(role, s) == Err(ProtocolError)
    ensures s != [] && s[0] & 0x70 == 0 && s[1..] == [] ==> ParseHead(role, s) == Err(EndOfStream)
    ensures s != [] && s[0] & 0x70 == 0 && s[1..] != [] ==>
              && s[1..][1..] == s[2..]
              && var b := s[1..][0];
                 ParseHead(role, s) == if role.Server? != (b & 0x80 != 0) then Err(ProtocolError)
                                       else Ok((s[0] & 0x80 != 0, s[0] & 0x0f, b & 0x7f))
  {
  }

  /** The body, read as the connection reads it: first the key, then the payload. */
  lemma BodySteps(masked: bool, n: nat, s: Bytes)
    ensures !masked ==> ParseBody(false, n, s) == if |s| < n then Err(EndOfStream) else Ok((s[..n], s[n..]))
    ensures masked && |s| < 4 ==> ParseBody(true, n, s) == Err(EndOfStream)
    ensures masked && |s| >= 4 ==>
              ParseBody(true, n, s) ==
              if |s[4..]| < n then Err(EndOfStream) else Ok((Masked(s[4..][..n], s[..4]), s[4..][n..]))
  {
    if masked && |s| >= 4 + n {
      assert s[4..][..n] == s[4..4 + n] && s[4..][n..] == s[4 + n..];
    }
  }

  /** These octets are this frame under some key. */
  ghost predicate SomeWire(w: Bytes, sender: Role, f: Frame) {
    exists key: Mask :: IsWire(w, sender, f, key)
  }

  lemma ThroughAll(wire: Bytes, credit: nat)
    requires |wire| <= credit
    ensures Through(wire, credit) == wire
  {
  }

  class Conn {
    const role: Role
    const max: nat
    const entropy: nat -> Mask
    var input: Bytes
    var output: Bytes
    var credit: nat
    var drawn: nat

    constructor (role: Role, max: nat, entropy: nat -> Mask, input: Bytes, credit: nat)
      ensures this.role == role && this.max == max && this.entropy == entropy
      ensures this.input == input && output == [] && this.credit == credit && drawn == 0
    {
      this.role, this.max, this.entropy := role, max, entropy;
      this.input, output, this.credit, drawn := input, [], credit, 0;
    }

    /** A write on the network, which fails once its credit is used up. */
    method Send(bytes: Bytes) returns (ok: bool)
      modifies `output, `credit
      ensures ok == (|bytes| <= old(credit)) && output == old(output) + Through(bytes, old(credit))
      ensures credit == if ok then old(credit) - |bytes| else 0
    {
      ok := |bytes| <= credit;
      output := output + Through(bytes, credit);
      credit := if ok then credit - |bytes| else 0;
    }

    method ReadByte() returns (r: Result<bv8, Error>)
      modifies `input
      ensures if old(input) == [] then r == Err(EndOfStream) && input == []
              else r == Ok(old(input)[0]) && input == old(input)[1..]
      ensures Leaves(old(input), input)
    {
      if input == [] { return Err(EndOfStream); }
      r := Ok(input[0]);
      input := input[1..];
    }

    method ReadFull(n: nat) returns (r: Result<Bytes, Error>)
      modifies `input
      ensures if |old(input)| < n then r == Err(EndOfStream) && input == []
              else r == Ok(old(input)[..n]) && input == old(input)[n..]
      ensures Leaves(old(input), input)
    {
      if |input| < n {
        input := [];
        return Err(EndOfStream);
      }
      r := Ok(input[..n]);
      input := input[n..];
    }

    /** The length that follows the seven-bit field. */
    method ReadLength(tag: bv8) returns (r: Result<nat, Error>)
      modifies `input
      ensures match ParseLength(tag, old(input))
              case Ok((n, rest)) => r == Ok(n) && input == rest
              case Err(e) => r == Err(e)
      ensures Leaves(old(input), input) && (r == Err(EndOfStream) ==> input == [])
    {
      if tag == 126 {
        var b := ReadFull(2);
        if b.Err? { return Err(b.error); }
        var length := FromBigEndian(b.value);
        if length < 126 { return Err(ProtocolError); }
        return Ok(length);
      } else if tag == 127 {
        var b := ReadFull(8);
        if b.Err? { return Err(b.error); }
        var length := FromBigEndian(b.value);
        if length >= TWO63 || length < 65536 { return Err(ProtocolError); }
        return Ok(length);
      }
      return Ok(tag as int);
    }

    /** The masking key and the payload, unmasked in place. */
    method ReadBody(masked: bool, length: nat) returns (r: Result<Bytes, Error>)
      modifies `input
      ensures match ParseBody(masked, length, old(input))
              case Ok((payload, rest)) => r == Ok(payload) && input == rest
              case Err(e) => r == Err(e)
      ensures Leaves(old(input), input) && (r == Err(EndOfStream) ==> input == [])
    {
      hide Leaves, Masked, ParseBody;
      ghost var start := input;
      BodySteps(masked, length, start);
      var mask: Mask := [0, 0, 0, 0];
      if masked {
        var key := ReadFull(4);
        if key.Err? { return Err(key.error); }
        mask := key.value;
      } else {
        LeavesAll(start);
      }
      ghost var middle := input;
      var body := ReadFull(length);
      LeavesOn(start, middle, input);
      if body.Err? { return Err(body.error); }
      var payload := ArrayOf(body.value);
      if masked { XorInPlace(payload, mask); }
      return Ok(payload[..]);
    }

    /** Length, limits and body, once the first two bytes are known. */
    method ReadTail(fin: bool, opcode: bv8, tag: bv8) returns (r: Result<Frame, Error>)
      modifies `input
      ensures match ParseTail(role, max, fin, opcode, tag, old(input))
              case Ok((f, rest)) => r == Ok(f) && input == rest
              case Err(e) => r == Err(e)
      ensures Leaves(old(input), input) && (r == Err(EndOfStream) ==> input == [])
    {
      hide ParseLength, ParseBody, Leaves;
      var length := ReadLength(tag);
      if length.Err? { return Err(length.error); }
      if opcode >= 8 && (!fin || length.value > 125) { return Err(ProtocolError); }
      if length.value > max { return Err(TooLarge); }
      ghost var middle := input;
      var payload := ReadBody(role.Server?, length.value);
      LeavesOn(old(input), middle, input);
      if payload.Err? { return Err(payload.error); }
      return Ok(Frame(fin, opcode, payload.value));
    }

    /** The first two bytes and the checks on them. */
    method ReadHead() returns (r: Result<(bool, bv8, bv8), Error>)
      modifies `input
      ensures r == ParseHead(role, old(input)) && (r.Ok? ==> input == old(input)[2..])
      ensures Leaves(old(input), input) && (r == Err(EndOfStream) ==> input == [])
    {
      hide Leaves, ParseHead;
      ghost var start := input;
      HeadSteps(role, start);
      var h := ReadByte();
      if h.Err? { return Err(h.error); }
      if h.value & 0x70 != 0 { return Err(ProtocolError); }
      ghost var middle := input;
      var b2 := ReadByte();
      LeavesOn(start, middle, input);
      if b2.Err? { return Err(b2.error); }
      var masked := b2.value & 0x80 != 0;
      if (role == Server && !masked) || (role == Client && masked) { return Err(ProtocolError); }
      return Ok((h.value & 0x80 != 0, h.value & 0x0f, b2.value & 0x7f));
    }

    method ReadFrame() returns (r: Result<Frame, Error>)
      modifies `input
      ensures match Parse(role, max, old(input))
              case Ok((f, rest)) => r == Ok(f) && input == rest
              case Err(e) => r == Err(e)
      ensures r.Ok? ==>
                && |input| <= |old(input)|
                && SomeWire(old(input)[..|old(input)| - |input|], Opposite(role), r.value)
      ensures Leaves(old(input), input) && (r == Err(EndOfStream) ==> input == [])
    {
      hide ParseHead, ParseTail, Leaves, IsWire;
      if Parse(role, max, input).Ok? { ghost var key := ParseOctets(role, max, input); }
      var head := ReadHead();
      if head.Err? { return Err(head.error); }
      var (fin, opcode, tag) := head.value;
      ghost var middle := input;
      r := ReadTail(fin, opcode, tag);
      LeavesOn(old(input), middle, input);
    }

    /** The two bytes every frame starts with. */
    method PutHead(header: array<bv8>, opcode: bv8, tag: bv8)
      requires header.Length == 14
      modifies header
      ensures header[..2] == [FirstByte(true, opcode), MaskBit(role) | tag]
    {
      var maskBit: bv8 := if role.Client? then 0x80 else 0;
      header[0] := 0x80 | opcode;
      header[1] := maskBit | tag;
    }

    /** Fills the header buffer and returns how much of it is used, key excluded. */
    method FillHeader(header: array<bv8>, opcode: bv8, length: nat) returns (n: nat)
      requires header.Length == 14
      modifies header
      ensures n <= 10
      ensures header[..n] == [FirstByte(true, opcode), MaskBit(role) | LengthTag(length)] + LengthExtension(length)
    {
      hide FirstByte, MaskBit, BigEndian;
      if length < 126 {
        PutHead(header, opcode, length as bv8);
        n := 2;
      } else if length <= 65535 {
        PutHead(header, opcode, 126);
        PutBigEndian(header, 2, 2, length);
        n := 4;
        assert header[..4] == header[..2] + header[2..4];
      } else {
        PutHead(header, opcode, 127);
        PutBigEndian(header, 2, 8, length);
        n := 10;
        assert header[..10] == header[..2] + header[2..10];
      }
    }

    /** Header and payload as two writes; the second only when the first went through. */
    method SendBoth(header: Bytes, payload: Bytes) returns (ok: bool)
      modifies `output, `credit
      ensures ok == (|header + payload| <= old(credit))
              && output == old(output) + Through(header + payload, old(credit))
      ensures credit == if ok then old(credit) - |header + payload| else 0
    {
      ok := Send(header);
      if ok {
        assert output == old(output) + header;
        ok := Send(payload);
        assert !ok ==> (header + payload)[..old(credit)] == header + payload[..old(credit) - |header|];
      } else {
        assert header[..old(credit)] == (header + payload)[..old(credit)];
      }
    }

    /** The header as far as it is used, and the payload, masked in a copy when this peer is the client. */
    method Assemble(opcode: bv8, payload: Bytes) returns (header: Bytes, out: Bytes)
      modifies `drawn
      ensures header + out == Encode(role, Frame(true, opcode, payload), entropy(old(drawn)))
      ensures drawn == if role.Client? then old(drawn) + 1 else old(drawn)
    {
      hide Encode, LengthTag, LengthExtension, FirstByte, MaskBit, Masked;
      EncodeParts(role, opcode, payload, entropy(drawn));
      var buffer := new bv8[14];
      var n := FillHeader(buffer, opcode, |payload|);
      var copied := ArrayOf(payload);
      if role.Client? {
        var mask := entropy(drawn);
        drawn := drawn + 1;
        CopyKey(buffer, n, mask);
        n := n + 4;
        XorInPlace(copied, mask);
      }
      assert role.Server? ==> buffer[..n] + [] == buffer[..n];
      return buffer[..n], copied[..];
    }

    /** One whole frame, as far as the network takes it. */
    method WriteFrame(opcode: bv8, payload: Bytes) returns (r: Result<(), Error>)
      modifies `output, `drawn, `credit
      ensures if opcode >= 8 && |payload| > 125 then
                r == Err(ControlTooLarge) && output == old(output) && drawn == old(drawn) && credit == old(credit)
              else
                var wire := Encode(role, Frame(true, opcode, payload), entropy(old(drawn)));
                && drawn == (if role.Client? then old(drawn) + 1 else old(drawn))
                && output == old(output) + Through(wire, old(credit))
                && r == (if |wire| <= old(credit) then Ok(()) else Err(WriteFailed))
                && credit == (if r.Ok? then old(credit) - |wire| else 0)
      ensures r.Ok? && opcode < 16 && |payload| < TWO63 ==>
                && old(output) <= output && drawn == (if role.Client? then old(drawn) + 1 else old(drawn))
                && IsWire(output[|old(output)|..], role, Frame(true, opcode, payload), entropy(old(drawn)))
    {
      hide Encode, Through, IsWire;
      if opcode >= 8 && |payload| > 125 { return Err(ControlTooLarge); }
      ghost var before, key := output, entropy(drawn);
      var header, out := Assemble(opcode, payload);
      var ok := SendBoth(header, out);
      if ok {
        ThroughAll(header + out, old(credit));
        SendableIsWire(role, opcode, payload, key, before, output);
      }
      return if ok then Ok(()) else Err(WriteFailed);
    }

    method WriteMessage(payload: Bytes) returns (r: Result<(), Error>)
      modifies `output, `drawn, `credit
      ensures if |payload| > max
              then r == Err(TooLarge) && output == old(output) && drawn == old(drawn) && credit == old(credit)
              else
                var wire := Encode(role, Frame(true, 1, payload), entropy(old(drawn)));
                && drawn == (if role.Client? then old(drawn) + 1 else old(drawn))
                && output == old(output) + Through(wire, old(credit))
                && r == (if |wire| <= old(credit) then Ok(()) else Err(WriteFailed))
                && credit == (if r.Ok? then old(credit) - |wire| else 0)
      ensures r.Ok? && |payload| < TWO63 ==>
                && old(output) <= output && drawn == (if role.Client? then old(drawn) + 1 else old(drawn))
                && IsWire(output[|old(output)|..], role, Frame(true, 1, payload), entropy(old(drawn)))
    {
      hide Encode, Through, IsWire;
      if |payload| > max { return Err(TooLarge); }
      r := WriteFrame(1, payload);
    }

    /** The data frames of the loop: out of turn, too much, the end of the message, or more to come. */
    method Gather(f: Frame, collected: Bytes, started: bool) returns (r: Reaction)
      requires f.opcode < 8 || f.opcode > 10
      ensures r == React(f, max, collected, started) && (r.Stop? || r.Collect?)
    {
      var out := collected;
      if f.opcode == 1 || f.opcode == 2 {
        if started { return Stop(Err(ProtocolError)); }
        out := out + f.payload;
      } else if f.opcode == 0 {
        if !started { return Stop(Err(ProtocolError)); }
        out := out + f.payload;
      } else {
        return Stop(Err(ProtocolError));
      }
      if |out| > max { return Stop(Err(TooLarge)); }
      return if f.fin then Stop(Ok(out)) else Collect(out);
    }

    /** One pong; its payload came in a control frame, so it is never too large. */
    method Answer(payload: Bytes) returns (r: Result<(), Error>)
      requires |payload| <= 125
      modifies `output, `drawn, `credit
      ensures var wire := Encode(role, Frame(true, 10, payload), entropy(old(drawn)));
              && drawn == KeysDrawn(role, old(drawn), 1) && output == old(output) + Through(wire, old(credit))
              && r == (if |wire| <= old(credit) then Ok(()) else Err(WriteFailed))
              && credit == (if r.Ok? then old(credit) - |wire| else 0)
    {
      hide Encode, Through, IsWire;
      r := WriteFrame(10, payload);
    }

    /**
     The reassembly loop.  Its output is one pong per ping, as far as the network takes them; a
     pong is never too large.  When all go through it returns what `Receive` says and leaves
     the rest unread; when one does not, it stops with that error.
     */
    method ReadMessage() returns (r: Result<Bytes, Error>)
      modifies `input, `output, `drawn, `credit
      ensures var e := Receive(role, max, old(input), [], false, []);
              var wire := PongBytes(role, entropy, old(drawn), e.pongs);
              && output == old(output) + Through(wire, old(credit))
              && (|wire| > old(credit) ==> r == Err(WriteFailed))
              && (|wire| <= old(credit) ==>
                    r == e.result && (r.Ok? ==> input == e.rest) && drawn == KeysDrawn(role, old(drawn), |e.pongs|)
                    && credit == old(credit) - |wire|)
    {
      hide Parse, Encode, PongBytes, Leaves, SomeWire;
      var out: Bytes, started := [], false;
      ghost var pongs: seq<Bytes> := [];
      PongBytesNone(role, entropy, drawn);
      assert output + [] == output;
      while true
        invariant Receive(role, max, old(input), [], false, []) == Receive(role, max, input, out, started, pongs)
        invariant output == old(output) + PongBytes(role, entropy, old(drawn), pongs)
        invariant drawn == KeysDrawn(role, old(drawn), |pongs|)
        invariant |PongBytes(role, entropy, old(drawn), pongs)| + credit == old(credit)
        decreases |input|
      {
        ghost var s := input;
        var read := ReadFrame();
        if read.Err? { return Err(read.error); }
        var f := read.value;
        if f.opcode == 8 {
          return Err(PeerClosed);
        } else if f.opcode == 9 {
          ghost var key := EncodeParse(role, max, s);
          ghost var before, frame := PongBytes(role, entropy, old(drawn), pongs),
            Encode(role, Frame(true, 10, f.payload), entropy(drawn));
          PongBytesSnoc(role, entropy, old(drawn), pongs, f.payload);
          pongs := pongs + [f.payload];
          var sent := Answer(f.payload);
          if sent.Err? {
            ghost var all := Receive(role, max, old(input), [], false, []).pongs;
            ReceiveKeepsPongs(role, max, input, out, started, pongs);
            PongBytesPrefix(role, entropy, old(drawn), pongs, all);
            CutOff(before, frame, PongBytes(role, entropy, old(drawn), all), old(credit));
            return Err(sent.error);
          }
        } else if f.opcode != 10 {
          var reaction := Gather(f, out, started);
          if reaction.Stop? { return reaction.result; }
          out, started := reaction.bytes, true;
        }
      }
    }
  }
}
