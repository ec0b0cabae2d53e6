/** Reassembly of fragmented messages with control frames in between (sections 5.4 and 5.5 of RFC 6455). */
module WebSocketMessages {
  import opened Common
  import opened WebSocket

  /** What `ReadMessage` produces: its result, the unread bytes and the payloads of the pongs it sent. */
  datatype Reception = Reception(result: Result<Bytes, Error>, rest: Bytes, pongs: seq<Bytes>)

  /** How the loop of `ReadMessage` takes one frame. */
  datatype Reaction = Stop(result: Result<Bytes, Error>) | Answer | Ignore | Collect(bytes: Bytes)

  function React(f: Frame, max: nat, collected: Bytes, started: bool): Reaction {
    if f.opcode == 8 then Stop(Err(PeerClosed))
    else if f.opcode == 9 then Answer
    else if f.opcode == 10 then Ignore
    else if f.opcode > 2 || started != (f.opcode == 0) then Stop(Err(ProtocolError))
    else if |collected + f.payload| > max then Stop(Err(TooLarge))
    else if f.fin then Stop(Ok(collected + f.payload))
    else Collect(collected + f.payload)
  }

  /** `ReadMessage` from the middle of its loop. */
  function Receive(role: Role, max: nat, s: Bytes, collected: Bytes, started: bool, pongs: seq<Bytes>): (r: Reception)
    decreases |s|
  {
    match Parse(role, max, s)
    case Err(e) => Reception(Err(e), s, pongs)
    case Ok((f, rest)) =>
      match React(f, max, collected, started)
      case Stop(result) => Reception(result, rest, pongs)
      case Answer => Receive(role, max, rest, collected, started, pongs + [f.payload])
      case Ignore => Receive(role, max, rest, collected, started, pongs)
      case Collect(bytes) => Receive(role, max, rest, bytes, true, pongs)
  }

  /** Pongs once promised stay promised. */
  lemma {:induction false} ReceiveKeepsPongs(role: Role, max: nat, s: Bytes, collected: Bytes, started: bool,
                                             pongs: seq<Bytes>)
    ensures pongs <= Receive(role, max, s, collected, started, pongs).pongs
    decreases |s|
  {
    hide React;
    var parsed := Parse(role, max, s);
    if parsed.Ok? {
      var (f, rest) := parsed.value;
      match React(f, max, collected, started) {
        case Stop(_) =>
        case Answer => ReceiveKeepsPongs(role, max, rest, collected, started, pongs + [f.payload]);
        case Ignore => ReceiveKeepsPongs(role, max, rest, collected, started, pongs);
        case Collect(bytes) => ReceiveKeepsPongs(role, max, rest, bytes, true, pongs);
      }
    }
  }

  // ---------------------------------------------------------------- fragmented messages

  /** A piece of a message on the wire: part of its data, or a ping or pong in between. */
  datatype Item =
    | Chunk(bytes: Bytes, mask: Mask)
    | Ping(bytes: Bytes, mask: Mask)
    | Pong(bytes: Bytes, mask: Mask)

  function Data(items: seq<Item>): Bytes {
    if items == [] then [] else (if items[0].Chunk? then items[0].bytes else []) + Data(items[1..])
  }

  function Pings(items: seq<Item>): seq<Bytes> {
    if items == [] then [] else (if items[0].Ping? then [items[0].bytes] else []) + Pings(items[1..])
  }

  /** The message ends with its last data fragment; control payloads fit a control frame and the limit. */
  predicate Fragmentation(items: seq<Item>, max: nat) {
    && items != [] && items[|items| - 1].Chunk?
    && forall k :: 0 <= k < |items| ==>
         |items[k].bytes| <= max && |items[k].bytes| < TWO63 && (items[k].Chunk? || |items[k].bytes| <= 125)
  }

  /** The frame of an item: the first fragment names the kind, the last one is final. */
  function FrameOf(kind: bv8, item: Item, started: bool, last: bool): Frame {
    match item
    case Chunk(b, _) => Frame(last, if started then 0 else kind, b)
    case Ping(b, _) => Frame(true, 9, b)
    case Pong(b, _) => Frame(true, 10, b)
  }

  function Wire(sender: Role, kind: bv8, items: seq<Item>, started: bool): Bytes {
    if items == [] then []
    else
      Encode(sender, FrameOf(kind, items[0], started, |items| == 1), items[0].mask)
      + Wire(sender, kind, items[1..], started || items[0].Chunk?)
  }

  /** An item is taken as what it is. */
  lemma ReactToItem(kind: bv8, item: Item, max: nat, collected: Bytes, started: bool, last: bool)
    requires (kind == 1 || kind == 2) && (item.Chunk? ==> |collected| + |item.bytes| <= max)
    ensures FrameOf(kind, item, started, last).payload == item.bytes
    ensures React(FrameOf(kind, item, started, last), max, collected, started) ==
            match item
            case Ping(_, _) => Answer
            case Pong(_, _) => Ignore
            case Chunk(b, _) => if last then Stop(Ok(collected + b)) else Collect(collected + b)
  {
  }

  lemma WireHead(sender: Role, kind: bv8, items: seq<Item>, max: nat, started: bool, rest: Bytes)
    requires (kind == 1 || kind == 2) && Fragmentation(items, max)
    ensures Parse(Opposite(sender), max, Wire(sender, kind, items, started) + rest)
            == Ok((FrameOf(kind, items[0], started, |items| == 1),
                   Wire(sender, kind, items[1..], started || items[0].Chunk?) + rest))
  {
    hide Parse, Encode;
    var f := FrameOf(kind, items[0], started, |items| == 1);
    var after := Wire(sender, kind, items[1..], started || items[0].Chunk?) + rest;
    assert Wire(sender, kind, items, started) + rest == Encode(sender, f, items[0].mask) + after;
    ParseEncode(sender, f, items[0].mask, max, after);
  }

  lemma WireNothing(sender: Role, kind: bv8, items: seq<Item>, rest: Bytes)
    requires items == []
    ensures Wire(sender, kind, items, true) + rest == rest
  {
  }

  lemma DataCons(head: Item, tail: seq<Item>)
    ensures Data([head] + tail) == (if head.Chunk? then head.bytes else []) + Data(tail)
    ensures Pings([head] + tail) == (if head.Ping? then [head.bytes] else []) + Pings(tail)
    ensures tail == [] ==> Data(tail) == [] && Pings(tail) == []
  {
    assert ([head] + tail)[1..] == tail;
  }

  /** Any fragmentation with any pings and pongs in between is reassembled, and every ping answered in order. */
  lemma {:induction false} ReceiveWire(sender: Role, kind: bv8, items: seq<Item>, max: nat, rest: Bytes,
                                       collected: Bytes, started: bool, pongs: seq<Bytes>)
    requires kind == 1 || kind == 2
    requires Fragmentation(items, max) && |collected| + |Data(items)| <= max
    ensures Receive(Opposite(sender), max, Wire(sender, kind, items, started) + rest, collected, started, pongs)
            == Reception(Ok(collected + Data(items)), rest, pongs + Pings(items))
    decreases |items|
  {
    hide Parse, React, Wire, FrameOf, Data, Pings;
    var item, tail := items[0], items[1..];
    assert items == [item] + tail;
    DataCons(item, tail);
    WireHead(sender, kind, items, max, started, rest);
    ReactToItem(kind, item, max, collected, started, |items| == 1);
    if |items| == 1 {
      assert item.bytes + [] == item.bytes && pongs + ([] + []) == pongs;
      WireNothing(sender, kind, tail, rest);
    } else {
      assert Fragmentation(tail, max) by { assert tail[|tail| - 1] == items[|items| - 1]; }
      match item {
        case Chunk(b, _) =>
          ReceiveWire(sender, kind, tail, max, rest, collected + b, true, pongs);
          assert collected + b + Data(tail) == collected + (b + Data(tail)) && [] + Pings(tail) == Pings(tail);
        case Ping(b, _) =>
          ReceiveWire(sender, kind, tail, max, rest, collected, started, pongs + [b]);
          assert pongs + [b] + Pings(tail) == pongs + ([b] + Pings(tail)) && [] + Data(tail) == Data(tail);
        case Pong(_, _) =>
          ReceiveWire(sender, kind, tail, max, rest, collected, started, pongs);
          assert [] + Pings(tail) == Pings(tail) && [] + Data(tail) == Data(tail);
      }
    }
  }

  /** A fragmented message within the limit, read from the start. */
  lemma ReassemblesMessage(sender: Role, kind: bv8, items: seq<Item>, max: nat, rest: Bytes)
    requires (kind == 1 || kind == 2) && Fragmentation(items, max) && |Data(items)| <= max
    ensures Receive(Opposite(sender), max, Wire(sender, kind, items, false) + rest, [], false, [])
            == Reception(Ok(Data(items)), rest, Pings(items))
  {
    hide Receive, Wire;
    ReceiveWire(sender, kind, items, max, rest, [], false, []);
    assert [] + Data(items) == Data(items) && [] + Pings(items) == Pings(items);
  }

  /** Once a message has started, its kind no longer shows on the wire. */
  lemma {:induction false} WireIgnoresKind(sender: Role, k1: bv8, k2: bv8, items: seq<Item>)
    ensures Wire(sender, k1, items, true) == Wire(sender, k2, items, true)
    decreases |items|
  {
    if items != [] { WireIgnoresKind(sender, k1, k2, items[1..]); }
  }

  lemma WireCons(sender: Role, kind: bv8, head: Item, tail: seq<Item>, started: bool, rest: Bytes)
    ensures Wire(sender, kind, [head] + tail, started) + rest
            == Encode(sender, FrameOf(kind, head, started, tail == []), head.mask)
               + (Wire(sender, kind, tail, started || head.Chunk?) + rest)
  {
    hide Encode;
    assert ([head] + tail)[1..] == tail;
  }

  /** The item a frame came from, read off the reaction to it. */
  lemma ItemOfReaction(f: Frame, key: Mask, max: nat, collected: Bytes, started: bool) returns (kind: bv8, item: Item)
    requires Sendable(f)
    requires React(f, max, collected, started).Stop? ==> React(f, max, collected, started).result.Ok?
    ensures (kind == 1 || kind == 2) && item.bytes == f.payload && item.mask == key
    ensures match React(f, max, collected, started)
            case Stop(result) =>
              item.Chunk? && f == FrameOf(kind, item, started, true) && result.value == collected + f.payload
            case Answer => item.Ping? && f == FrameOf(kind, item, started, false) && |f.payload| <= 125
            case Ignore => item.Pong? && f == FrameOf(kind, item, started, false) && |f.payload| <= 125
            case Collect(bytes) =>
              item.Chunk? && f == FrameOf(kind, item, started, false) && bytes == collected + f.payload
  {
    kind := if f.opcode == 2 then 2 else 1;
    item := if f.opcode == 9 then Ping(f.payload, key) else if f.opcode == 10 then Pong(f.payload, key)
      else Chunk(f.payload, key);
  }

  /** Only a fragment that starts a message shows its kind. */
  lemma FrameIgnoresKind(k1: bv8, k2: bv8, item: Item, started: bool, last: bool)
    requires started || !item.Chunk?
    ensures FrameOf(k1, item, started, last) == FrameOf(k2, item, started, last)
  {
  }

  lemma FragmentationCons(head: Item, tail: seq<Item>, max: nat)
    requires (tail == [] && head.Chunk?) || Fragmentation(tail, max)
    requires |head.bytes| <= max && |head.bytes| < TWO63 && (head.Chunk? || |head.bytes| <= 125)
    ensures Fragmentation(tail, max) ==> tail != []
    ensures Fragmentation([head] + tail, max)
  {
  }

  /**
   Conversely, whatever is accepted was such a fragmentation: a message is never made of
   anything but the data fragments of one message, in order.
   */
  lemma {:induction false} ReceivedWasFragmented(role: Role, max: nat, s: Bytes, collected: Bytes, started: bool,
                                                 pongs: seq<Bytes>)
    returns (kind: bv8, items: seq<Item>)
    requires Receive(role, max, s, collected, started, pongs).result.Ok?
    ensures kind == 1 || kind == 2
    ensures Fragmentation(items, max)
    ensures var r := Receive(role, max, s, collected, started, pongs);
            && r.result.value == collected + Data(items) && r.pongs == pongs + Pings(items)
            && s == Wire(Opposite(role), kind, items, started) + r.rest
    decreases |s|
  {
    hide Parse, Encode, React, FrameOf, Wire, Data, Pings, Fragmentation;
    var (f, rest) := Parse(role, max, s).value;
    var key := EncodeParse(role, max, s);
    var sender, r := Opposite(role), Receive(role, max, s, collected, started, pongs);
    var first, head := ItemOfReaction(f, key, max, collected, started);
    var tail: seq<Item> := [];
    match React(f, max, collected, started) {
      case Stop(_) =>
        kind := first;
        WireNothing(sender, kind, tail, rest);
        assert f.payload + [] == f.payload && pongs + ([] + []) == pongs;
      case Answer =>
        kind, tail := ReceivedWasFragmented(role, max, rest, collected, started, pongs + [f.payload]);
        FrameIgnoresKind(kind, first, head, started, false);
        assert pongs + [f.payload] + Pings(tail) == pongs + ([f.payload] + Pings(tail))
          && [] + Data(tail) == Data(tail);
      case Ignore =>
        kind, tail := ReceivedWasFragmented(role, max, rest, collected, started, pongs);
        FrameIgnoresKind(kind, first, head, started, false);
        assert [] + Pings(tail) == Pings(tail) && [] + Data(tail) == Data(tail);
      case Collect(bytes) =>
        var later;
        later, tail := ReceivedWasFragmented(role, max, rest, bytes, true, pongs);
        WireIgnoresKind(sender, later, first, tail);
        kind := first;
        assert collected + f.payload + Data(tail) == collected + (f.payload + Data(tail))
          && [] + Pings(tail) == Pings(tail);
    }
    items := [head] + tail;
    WireCons(sender, kind, head, tail, started, r.rest);
    DataCons(head, tail);
    FragmentationCons(head, tail, max);
  }

  /** No message longer than the limit is ever returned, and every pong fits a control frame. */
  lemma {:induction false} ReceiveIsBounded(role: Role, max: nat, s: Bytes, collected: Bytes, started: bool,
                                            pongs: seq<Bytes>)
    requires forall p :: p in pongs ==> |p| <= 125
    ensures var r := Receive(role, max, s, collected, started, pongs);
            (r.result.Ok? ==> |r.result.value| <= max) && (forall p :: p in r.pongs ==> |p| <= 125)
    decreases |s|
  {
    if Parse(role, max, s).Ok? {
      var (f, rest) := Parse(role, max, s).value;
      if f.opcode == 9 {
        var key := EncodeParse(role, max, s);
        ReceiveIsBounded(role, max, rest, collected, started, pongs + [f.payload]);
      } else if f.opcode == 10 {
        ReceiveIsBounded(role, max, rest, collected, started, pongs);
      } else if f.opcode <= 2 && started == (f.opcode == 0) && |collected + f.payload| <= max && !f.fin {
        ReceiveIsBounded(role, max, rest, collected + f.payload, true, pongs);
      }
    }
  }

  // ---------------------------------------------------------------- one frame at a time

  /** The data of a message are its fragments' bytes one after the other, and the pings come in order. */
  lemma {:induction false} DataInOrder(items: seq<Item>, item: Item)
    ensures Data([]) == [] && Pings([]) == []
    ensures Data(items + [item]) == if item.Chunk? then Data(items) + item.bytes else Data(items)
    ensures Pings(items + [item]) == if item.Ping? then Pings(items) + [item.bytes] else Pings(items)
    decreases |items|
  {
    hide Data, Pings;
    DataCons(item, []);
    if items == [] {
      assert [] + [item] == [item] + [] && [item] + [] == [item];
      DataCons(item, []);
      assert item.bytes + [] == item.bytes && [item.bytes] + [] == [item.bytes] && [] + item.bytes == item.bytes;
    } else {
      var head, tail := items[0], items[1..];
      DataInOrder(tail, item);
      assert items == [head] + tail && items + [item] == [head] + (tail + [item]);
      DataCons(head, tail);
      DataCons(head, tail + [item]);
    }
  }

  /**
   What the next frame does: a ping is answered and a pong passed over, the data of a fragment
   that is in turn are added, and everything else ends the reading, each in its own way.
   */
  lemma FrameDecides(role: Role, max: nat, s: Bytes, collected: Bytes, started: bool, pongs: seq<Bytes>)
    requires Parse(role, max, s).Ok?
    ensures var (f, rest) := Parse(role, max, s).value;
            var r := Receive(role, max, s, collected, started, pongs);
            var inTurn := if started then f.opcode == 0 else f.opcode == 1 || f.opcode == 2;
            && (f.opcode == 9 ==> r == Receive(role, max, rest, collected, started, pongs + [f.payload]))
            && (f.opcode == 10 ==> r == Receive(role, max, rest, collected, started, pongs))
            && (f.opcode == 8 ==> r == Reception(Err(PeerClosed), rest, pongs))
            && (f.opcode < 8 && !inTurn ==> r == Reception(Err(ProtocolError), rest, pongs))
            && (f.opcode > 10 ==> r == Reception(Err(ProtocolError), rest, pongs))
            && (inTurn && |collected| + |f.payload| > max ==> r == Reception(Err(TooLarge), rest, pongs))
            && (inTurn && |collected| + |f.payload| <= max ==>
                  r == if f.fin then Reception(Ok(collected + f.payload), rest, pongs)
                       else Receive(role, max, rest, collected + f.payload, true, pongs))
  {
    hide Parse;
  }
}
