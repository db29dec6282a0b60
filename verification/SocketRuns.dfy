/** A whole conversation over a socket (libAfterBase/socket.c): a list of messages written one after the other, and
    a list of items read one after the other, in whatever pieces the network delivers the bytes. */
module SocketRuns {
  import opened Common
  import opened WireFormat
  import opened SocketReader
  import W = SocketWriter

  /** What the reader asks for: so many integers, or a string of at most so many bytes. */
  datatype Want = Some32(n: nat) | Some16(n: nat) | String(maxSize: nat)

  /** A message with nothing in it. All but the empty string leave nothing on the wire. */
  predicate IsEmpty(m: W.Message)
  {
    match m
    case Ints32(data) => data == []
    case Ints16(data) => data == []
    case Text(text) => text == []
    case Nothing => true
  }

  predicate Meets(m: W.Message, want: Want)
  {
    match want
    case Some32(n) => m.Ints32? && |m.data32| == n > 0
    case Some16(n) => m.Ints16? && |m.data16| == n > 0
    case String(maxSize) => m.Text? && 0 < |m.text| <= maxSize && |m.text| < 0x1_0000_0000
  }

  /** The next message that leaves something on the wire is a string. */
  predicate TextComes(messages: seq<W.Message>)
  {
    messages != [] && (messages[0].Text? || (IsEmpty(messages[0]) && TextComes(messages[1..])))
  }

  /** The reader asks for what is written, in this order. It passes over an empty string when it waits for a string,
      so only in front of a string may there be one. */
  predicate Agreed(messages: seq<W.Message>, wants: seq<Want>)
  {
    if messages == [] then wants == []
    else if IsEmpty(messages[0]) then (messages[0].Text? ==> TextComes(messages[1..])) && Agreed(messages[1..], wants)
    else wants != [] && Meets(messages[0], wants[0]) && Agreed(messages[1..], wants[1..])
  }

  /** The messages with something in them. */
  function Substance(messages: seq<W.Message>): seq<W.Message>
  {
    if messages == [] then []
    else (if IsEmpty(messages[0]) then [] else [messages[0]]) + Substance(messages[1..])
  }

  lemma {:induction false} BytesFromFront(messages: seq<W.Message>)
    requires messages != []
    ensures W.AllBytes(messages) == W.Bytes(messages[0]) + W.AllBytes(messages[1..])
  {
    hide W.Bytes;
    var front, last := messages[..|messages| - 1], messages[|messages| - 1];
    if front == [] {
      assert W.AllBytes(messages[1..]) == [] && W.AllBytes(front) == [];
    } else {
      BytesFromFront(front);
      assert messages[1..][..|messages| - 2] == front[1..];
    }
  }

  lemma EmptyBytes(m: W.Message)
    requires IsEmpty(m)
    ensures W.Bytes(m) == if m.Text? then W.NetString([]) else []
  {
  }

  /** The next message with something in it, behind e empty strings. */
  lemma {:induction false} NextMessage(messages: seq<W.Message>, wants: seq<Want>)
      returns (e: nat, m: W.Message, more: seq<W.Message>)
    requires Agreed(messages, wants) && wants != []
    ensures W.AllBytes(messages) == Empties(e) + (W.Bytes(m) + W.AllBytes(more))
    ensures Meets(m, wants[0]) && Agreed(more, wants[1..]) && Substance(messages) == [m] + Substance(more)
    ensures (TextComes(messages) ==> m.Text?) && (!m.Text? ==> e == 0)
  {
    hide W.AllBytes, W.Bytes, W.NetString;
    BytesFromFront(messages);
    if IsEmpty(messages[0]) {
      e, m, more := NextMessage(messages[1..], wants);
      EmptyBytes(messages[0]);
      var x := W.Bytes(m) + W.AllBytes(more);
      if messages[0].Text? {
        e := e + 1;
        assert W.NetString([]) + (Empties(e - 1) + x) == (W.NetString([]) + Empties(e - 1)) + x;
      } else {
        assert [] + (Empties(e) + x) == Empties(e) + x;
      }
    } else {
      e, m, more := 0, messages[0], messages[1..];
      assert Empties(0) + (W.Bytes(m) + W.AllBytes(more)) == W.Bytes(m) + W.AllBytes(more);
    }
  }

  lemma {:induction false} NothingMore(messages: seq<W.Message>)
    requires Agreed(messages, [])
    ensures W.AllBytes(messages) == [] && Substance(messages) == [] && !TextComes(messages)
  {
    hide W.Bytes;
    if messages != [] {
      BytesFromFront(messages);
      EmptyBytes(messages[0]);
      NothingMore(messages[1..]);
    }
  }

  /** What a received item holds, as a message. */
  function Values32(memory: seq<Byte>, n: nat): (values: seq<Card32>)
    requires 4 * n <= |memory|
    ensures |values| == n && forall i :: 0 <= i < n ==> values[i] == Host32(Slice(memory, 4 * i, 4))
  {
    seq(n, i requires 0 <= i < n => Host32(Slice(memory, 4 * i, 4)))
  }

  function Values16(memory: seq<Byte>, n: nat): (values: seq<Card16>)
    requires 2 * n <= |memory|
    ensures |values| == n && forall i :: 0 <= i < n ==> values[i] == Host16(Slice(memory, 2 * i, 2))
  {
    seq(n, i requires 0 <= i < n => Host16(Slice(memory, 2 * i, 2)))
  }

  /** Receives one message. */
  method ReceiveOne(conn: Connection, want: Want, ghost e: nat, ghost m: W.Message, ghost rest: seq<Byte>)
      returns (result: ProtocolResult, got: W.Message)
    requires Meets(m, want) && (!m.Text? ==> e == 0) && conn.stream == Empties(e) + (W.Bytes(m) + rest)
    modifies conn
    ensures result != BadData && (result == WaitData ==> conn.events == [])
    ensures result == Success ==> got == m && conn.stream == rest
    ensures Honest(old(conn.stream), old(conn.events), conn.stream, conn.events, result == SocketError)
    ensures Failed !in old(conn.events) && Chunks(old(conn.events)) >= |Empties(e)| + |W.Bytes(m)| ==> result == Success
  {
    hide Honest, Chunks, Host16, Host32, W.NetString;
    EmptiesLength(e);
    assert Empties(0) + (W.Bytes(m) + rest) == W.Bytes(m) + rest;
    got := W.Nothing;
    match want
    case Some32(n) =>
      var item;
      result, item := ReceiveInts32(conn, m.data32, n, rest);
      if result == Success {
        got := W.Ints32(Values32(item.memory, n));
        assert got.data32 == m.data32;
      }
    case Some16(n) =>
      var item;
      result, item := ReceiveInts16(conn, m.data16, n, rest);
      if result == Success {
        got := W.Ints16(Values16(item.memory, n));
        assert got.data16 == m.data16;
      }
    case String(maxSize) =>
      var item;
      TextSize(m.text);
      result, item := ReceiveText(conn, e, m.text, maxSize, rest);
      if result == Success {
        got := W.Text(item.memory[..item.size]);
      }
  }

  lemma TextSize(text: seq<Byte>)
    requires |text| < 0x1_0000_0000
    ensures |W.NetString(text)| == 4 + |text|
  {
  }

  /** What is left of the chunks after some of the bytes have been read. */
  lemma ChunksLeft(s: seq<Byte>, e: seq<Event>, s': seq<Byte>, e': seq<Event>, need: nat)
    requires Honest(s, e, s', e', false) && Chunks(e) >= |s| - |s'| + need && Failed !in e
    ensures s' != [] ==> Chunks(e') >= need
    ensures Failed !in e'
  {
  }

  /** Whatever pieces the network delivers, the messages written are the messages received, each once and in order,
      and nothing behind them is touched. They all arrive if the network delivers often enough and does not fail;
      what has arrived by the time it gives up is the beginning of what was written. */
  method ReceiveAll(conn: Connection, wants: seq<Want>, ghost messages: seq<W.Message>, ghost rest: seq<Byte>)
      returns (result: ProtocolResult, got: seq<W.Message>)
    requires Agreed(messages, wants) && conn.stream == W.AllBytes(messages) + rest
    modifies conn
    ensures got <= Substance(messages) && result != BadData
    ensures result == Success ==> got == Substance(messages) && |got| == |wants| && conn.stream == rest
    ensures Failed !in old(conn.events) && Chunks(old(conn.events)) >= |W.AllBytes(messages)| ==> result == Success
  {
    hide *;
    got, result := [], Success;
    ghost var left := messages;
    Whole(messages, wants);
    for i := 0 to |wants|
      invariant result == Success && Agreed(left, wants[i..]) && conn.stream == W.AllBytes(left) + rest
      invariant Substance(messages) == got + Substance(left) && |got| == i
      invariant Failed !in old(conn.events) && Chunks(old(conn.events)) >= |W.AllBytes(messages)| ==>
          Failed !in conn.events && (W.AllBytes(left) == [] || Chunks(conn.events) >= |W.AllBytes(left)|)
    {
      ghost var e, m, more := NextMessage(left, wants[i..]);
      ghost var s, events := conn.stream, conn.events;
      Grouped(e, m, more, rest);
      SomethingToCome(e, m, wants[i], more);
      var one;
      result, one := ReceiveOne(conn, wants[i], e, m, W.AllBytes(more) + rest);
      if result != Success {
        return;
      }
      Passes(s, events, conn.stream, conn.events, e, m, more, rest);
      assert wants[i..][1..] == wants[i + 1..];
      assert got + ([m] + Substance(more)) == (got + [m]) + Substance(more);
      got, left := got + [one], more;
    }
    assert wants[|wants|..] == [];
    NothingMore(left);
    assert [] + rest == rest && got + [] == got;
  }

  lemma Whole(messages: seq<W.Message>, wants: seq<Want>)
    ensures wants[0..] == wants && Substance(messages) == [] + Substance(messages)
  {
  }

  lemma Grouped(e: nat, m: W.Message, more: seq<W.Message>, rest: seq<Byte>)
    ensures (Empties(e) + (W.Bytes(m) + W.AllBytes(more))) + rest == Empties(e) + (W.Bytes(m) + (W.AllBytes(more) + rest))
  {
  }

  lemma SomethingToCome(e: nat, m: W.Message, want: Want, more: seq<W.Message>)
    requires Meets(m, want)
    ensures |W.Bytes(m)| > 0
    ensures |Empties(e) + (W.Bytes(m) + W.AllBytes(more))| == |Empties(e)| + |W.Bytes(m)| + |W.AllBytes(more)| > 0
  {
    hide Empties, W.AllBytes;
    match m
    case Ints32(data) =>
    case Ints16(data) =>
    case Text(text) => TextSize(text);
    case Nothing =>
  }

  /** One message has been taken off the wire, and the chunks left are enough for the rest. */
  lemma Passes(s: seq<Byte>, events: seq<Event>, s': seq<Byte>, events': seq<Event>, e: nat, m: W.Message,
               more: seq<W.Message>, rest: seq<Byte>)
    requires Honest(s, events, s', events', false) && s' == W.AllBytes(more) + rest
    requires s == Empties(e) + (W.Bytes(m) + (W.AllBytes(more) + rest))
    ensures Failed !in events ==> Failed !in events'
    ensures Failed !in events && Chunks(events) >= |Empties(e)| + |W.Bytes(m)| + |W.AllBytes(more)| ==>
      W.AllBytes(more) == [] || Chunks(events') >= |W.AllBytes(more)|
  {
    hide Empties, W.Bytes, W.AllBytes, Chunks;
    if Failed !in events && Chunks(events) >= |Empties(e)| + |W.Bytes(m)| + |W.AllBytes(more)| {
      ChunksLeft(s, events, s', events', |W.AllBytes(more)|);
    }
  }
}
