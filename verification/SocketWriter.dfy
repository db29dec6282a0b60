/** The buffered writer of libAfterBase/socket.c. A write to the socket is taken to accept all it is given. */
module SocketWriter {
  import opened Common
  import opened WireFormat

  const BUFFER_SIZE := 2048

  class SocketBuffer {
    const fd: int
    var bytesIn: nat
    const buffer: array<Byte>

    /** What the socket has been given so far. */
    ghost var wire: seq<Byte>

    ghost predicate Valid()
      reads this
    {
      buffer.Length == BUFFER_SIZE && bytesIn < BUFFER_SIZE
    }

    /** All that has been written, in order: on the wire, or waiting in the buffer. */
    ghost function Written(): seq<Byte>
      requires Valid()
      reads this, buffer
    {
      wire + buffer[..bytesIn]
    }

    constructor (fd: int)
      ensures Valid() && Written() == [] && this.fd == fd && fresh(buffer)
    {
      this.fd := fd;
      buffer := new Byte[BUFFER_SIZE](_ => 0);
      bytesIn, wire := 0, [];
    }

    /** Hands the first n bytes of the buffer to the socket, which takes them all. */
    method Send(n: nat) returns (written: nat)
      requires buffer.Length == BUFFER_SIZE && n <= BUFFER_SIZE
      modifies `wire
      ensures written == n && wire == old(wire) + buffer[..n]
    {
      wire := wire + buffer[..n];
      written := n;
    }

    /** Keeps data in the buffer while it fits; a full buffer is sent, and so is data that does not fit, after
        what the buffer holds. No data at all empties the buffer. */
    method BufferedWrite(data: seq<Byte>)
      requires Valid()
      modifies this, buffer
      ensures Valid() && Written() == old(Written()) + (if fd < 0 then [] else data)
      ensures fd >= 0 && data == [] ==> bytesIn == 0
    {
      if fd < 0 {
        return;
      }
      if data == [] {
        var written := Send(bytesIn);
        bytesIn := bytesIn - written;
      } else if |data| > BUFFER_SIZE - bytesIn {
        while bytesIn > 0
          invariant bytesIn < BUFFER_SIZE && wire + buffer[..bytesIn] == old(Written())
        {
          var written := Send(bytesIn);
          bytesIn := bytesIn - written;
        }
        wire := wire + data;
      } else {
        CopyIn(data);
        if bytesIn == BUFFER_SIZE {
          var written := Send(bytesIn);
          bytesIn := bytesIn - written;
        }
      }
    }

    method CopyIn(data: seq<Byte>)
      requires Valid() && |data| <= BUFFER_SIZE - bytesIn
      modifies `bytesIn, buffer
      ensures bytesIn == old(bytesIn) + |data| && buffer[..bytesIn] == old(buffer[..bytesIn]) + data
    {
      ghost var was := buffer[..];
      var n := bytesIn;
      for i := 0 to |data|
        invariant bytesIn == n && buffer[..n] == was[..n] && buffer[n..n + i] == data[..i]
      {
        buffer[n + i] := data[i];
        assert buffer[n..n + i + 1] == buffer[n..n + i] + [data[i]];
      }
      assert buffer[..n + |data|] == buffer[..n] + buffer[n..n + |data|];
      bytesIn := n + |data|;
    }

    /** Writes integers in network order, one at a time. */
    method WriteInt32(data: seq<Card32>)
      requires Valid()
      modifies this, buffer
      ensures Valid() && Written() == old(Written()) + (if fd < 0 then [] else AllNet32(data))
    {
      for i := 0 to |data|
        invariant Valid() && Written() == old(Written()) + (if fd < 0 then [] else AllNet32(data[..i]))
      {
        BufferedWrite(Memory32(Swap32(data[i])));
        assert data[..i + 1][..i] == data[..i];
      }
      assert data[..|data|] == data;
    }

    method WriteInt16(data: seq<Card16>)
      requires Valid()
      modifies this, buffer
      ensures Valid() && Written() == old(Written()) + (if fd < 0 then [] else AllNet16(data))
    {
      for i := 0 to |data|
        invariant Valid() && Written() == old(Written()) + (if fd < 0 then [] else AllNet16(data[..i]))
      {
        BufferedWrite(Memory16(Swap16(data[i])));
        assert data[..i + 1][..i] == data[..i];
      }
      assert data[..|data|] == data;
    }

    /** Writes a string as its length and its bytes. */
    method WriteString(text: seq<Byte>)
      requires Valid() && |text| < 0x1_0000_0000
      modifies this, buffer
      ensures Valid() && Written() == old(Written()) + (if fd < 0 then [] else NetString(text))
    {
      hide AllNet32, Net32;
      if fd >= 0 {
        OneNet32(|text|);
        WriteInt32([|text|]);
        if |text| > 0 {
          BufferedWrite(text);
        }
      }
    }

    method Flush()
      requires Valid()
      modifies this, buffer
      ensures Valid() && Written() == old(Written()) && (fd >= 0 ==> wire == old(Written()))
    {
      BufferedWrite([]);
    }
  }

  function AllNet32(data: seq<Card32>): (m: seq<Byte>)
    ensures |m| == 4 * |data|
  {
    if data == [] then [] else AllNet32(data[..|data| - 1]) + Net32(data[|data| - 1])
  }

  function AllNet16(data: seq<Card16>): (m: seq<Byte>)
    ensures |m| == 2 * |data|
  {
    if data == [] then [] else AllNet16(data[..|data| - 1]) + Net16(data[|data| - 1])
  }

  function NetString(text: seq<Byte>): seq<Byte>
    requires |text| < 0x1_0000_0000
  {
    Net32(|text|) + text
  }

  lemma OneNet32(x: Card32)
    ensures AllNet32([x]) == Net32(x)
  {
    assert [x][..0] == [] && AllNet32([]) == [];
  }

  datatype Message = Ints32(data32: seq<Card32>) | Ints16(data16: seq<Card16>) | Text(text: seq<Byte>) | Nothing

  ghost predicate Sendable(messages: seq<Message>)
  {
    forall i :: 0 <= i < |messages| && messages[i].Text? ==> |messages[i].text| < 0x1_0000_0000
  }

  /** The bytes of a message on the wire. */
  function Bytes(m: Message): seq<Byte>
  {
    match m
    case Ints32(data) => AllNet32(data)
    case Ints16(data) => AllNet16(data)
    case Text(text) => if |text| < 0x1_0000_0000 then NetString(text) else []
    case Nothing => []
  }

  lemma {:induction false} Net32At(data: seq<Card32>, i: nat)
    requires i < |data|
    ensures AllNet32(data)[4 * i..4 * i + 4] == Net32(data[i])
  {
    var m := |data| - 1;
    if i < m {
      Net32At(data[..m], i);
      assert AllNet32(data)[4 * i..4 * i + 4] == AllNet32(data[..m])[4 * i..4 * i + 4];
    }
  }

  lemma {:induction false} Net16At(data: seq<Card16>, i: nat)
    requires i < |data|
    ensures AllNet16(data)[2 * i..2 * i + 2] == Net16(data[i])
  {
    var m := |data| - 1;
    if i < m {
      Net16At(data[..m], i);
      assert AllNet16(data)[2 * i..2 * i + 2] == AllNet16(data[..m])[2 * i..2 * i + 2];
    }
  }

  /** What goes over the wire: every integer with its most significant byte first, a text behind its length in four
      bytes, and nothing else. */
  lemma BytesOnTheWire(m: Message)
    ensures m.Ints32? ==> |Bytes(m)| == 4 * |m.data32| && forall i :: 0 <= i < |m.data32| ==>
      Bytes(m)[4 * i..4 * i + 4] == BigEndian(m.data32[i])
    ensures m.Ints16? ==> |Bytes(m)| == 2 * |m.data16| && forall i :: 0 <= i < |m.data16| ==>
      Bytes(m)[2 * i..2 * i + 2] == BigEndian(m.data16[i])[2..]
    ensures m.Text? && |m.text| < 0x1_0000_0000 ==> Bytes(m) == BigEndian(|m.text|) + m.text
    ensures m.Nothing? ==> Bytes(m) == []
  {
    hide AllNet32, AllNet16, Net32, Net16;
    match m
    case Ints32(data) =>
      forall i | 0 <= i < |data| ensures Bytes(m)[4 * i..4 * i + 4] == BigEndian(data[i]) {
        Net32At(data, i);
        NetIsBigEndian(data[i]);
      }
    case Ints16(data) =>
      forall i | 0 <= i < |data| ensures Bytes(m)[2 * i..2 * i + 2] == BigEndian(data[i])[2..] {
        Net16At(data, i);
        Net16IsBigEndian(data[i]);
      }
    case Text(text) =>
      if |text| < 0x1_0000_0000 {
        NetIsBigEndian(|text|);
      }
    case Nothing =>
  }

  /** Four bytes, the most significant one first. */
  function BigEndian(x: Card32): (r: seq<Byte>)
    ensures |r| == 4
  {
    [x / 0x100_0000, x / 0x1_0000 % 256, x / 0x100 % 256, x % 256]
  }

  function AllBytes(messages: seq<Message>): seq<Byte>
  {
    if messages == [] then [] else AllBytes(messages[..|messages| - 1]) + Bytes(messages[|messages| - 1])
  }

  /** Any run of writes and flushes: nothing is lost, repeated or reordered, and after a flush all is sent. */
  method WriteAll(sb: SocketBuffer, messages: seq<Message>)
    requires sb.Valid() && sb.fd >= 0 && Sendable(messages)
    modifies sb, sb.buffer
    ensures sb.Valid() && sb.wire == old(sb.Written()) + AllBytes(messages)
  {
    hide Bytes;
    for i := 0 to |messages|
      invariant sb.Valid() && sb.Written() == old(sb.Written()) + AllBytes(messages[..i])
    {
      WriteMessage(sb, messages[i]);
      assert messages[..i + 1][..i] == messages[..i];
    }
    assert messages[..|messages|] == messages;
    sb.Flush();
  }

  method WriteMessage(sb: SocketBuffer, m: Message)
    requires sb.Valid() && sb.fd >= 0 && (m.Text? ==> |m.text| < 0x1_0000_0000)
    modifies sb, sb.buffer
    ensures sb.Valid() && sb.Written() == old(sb.Written()) + Bytes(m)
  {
    hide AllNet32, AllNet16, NetString;
    match m {
      case Ints32(data) => sb.WriteInt32(data);
      case Ints16(data) => sb.WriteInt16(data);
      case Text(text) => sb.WriteString(text);
      case Nothing => sb.Flush();
    }
  }
}
