/** The resumable reader of libAfterBase/socket.c: an item is read in as many pieces, over as many calls, as
    the network happens to deliver it in. */
module SocketReader {
  import opened Arithmetic
  import opened Common
  import opened WireFormat
  import W = SocketWriter

  /** What the next read from the network does: delivers some bytes (one more than n, if they are asked for
      and there), is interrupted, has nothing yet, or fails. */
  datatype Event = Chunk(n: nat) | Interrupted | Again | Failed

  datatype ReadResult = Got(bytes: seq<Byte>) | EIntr | EAgain | Error

  datatype ProtocolResult = SocketError | BadData | WaitData | Success

  /** How many of the reads will deliver something, if there is anything. */
  ghost function Chunks(events: seq<Event>): nat
  {
    if events == [] then 0 else (if events[0].Chunk? then 1 else 0) + Chunks(events[1..])
  }

  /** No read has found nothing while there still were bytes, and none has failed without an event to say so. */
  ghost predicate Honest(stream: seq<Byte>, events: seq<Event>, stream': seq<Byte>, events': seq<Event>, failed: bool)
  {
    && |stream'| <= |stream| && (stream' == [] || |stream'| + Chunks(events) <= |stream| + Chunks(events'))
    && (forall e :: e in events' ==> e in events) && (failed ==> Failed in events)
  }

  lemma HonestOn(s1: seq<Byte>, e1: seq<Event>, s2: seq<Byte>, e2: seq<Event>, s3: seq<Byte>, e3: seq<Event>, failed: bool)
    requires Honest(s1, e1, s2, e2, false) && Honest(s2, e2, s3, e3, failed)
    ensures Honest(s1, e1, s3, e3, failed)
  {
  }

  lemma HonestAtFirst(s: seq<Byte>, e: seq<Event>)
    ensures Honest(s, e, s, e, false)
  {
  }

  lemma Regroup(a: seq<Byte>, b: seq<Byte>, c: seq<Byte>)
    ensures a + (b + c) == (a + b) + c
  {
  }

  class Connection {
    /** The bytes still to be read, and what the reads will do. */
    var stream: seq<Byte>
    var events: seq<Event>

    constructor (stream: seq<Byte>, events: seq<Event>)
      ensures this.stream == stream && this.events == events
    {
      this.stream, this.events := stream, events;
    }

    /** One read of at most want bytes; nothing comes once the events have run out. */
    method Read(want: nat) returns (r: ReadResult)
      requires want > 0
      modifies this
      ensures events == if old(events) == [] then [] else old(events)[1..]
      ensures r.Got? ==> 0 < |r.bytes| <= want && old(stream) == r.bytes + stream
      ensures !r.Got? ==> stream == old(stream)
      ensures r.Got? <==> old(events) != [] && old(events)[0].Chunk? && old(stream) != []
      ensures r.Error? <==> old(events) != [] && old(events)[0].Failed?
      ensures r.EIntr? ==> old(events) != [] && old(events)[0].Interrupted?
      ensures Honest(old(stream), old(events), stream, events, r.Error?)
    {
      if events == [] {
        return EAgain;
      }
      var event := events[0];
      events := events[1..];
      match event
      case Interrupted => r := EIntr;
      case Again => r := EAgain;
      case Failed => r := Error;
      case Chunk(n) =>
        var k := Min(n + 1, Min(want, |stream|));
        if k == 0 {
          return EAgain;
        }
        r := Got(stream[..k]);
        stream := stream[k..];
    }
  }

  const STRING := 0
  const BYTE := 1
  const INT16 := 2
  const INT32 := 4

  /** The length of a string, once all four bytes of it are there. */
  function Length(taken: seq<Byte>): Card32
    requires |taken| >= 4
  {
    Swap32(Host32(taken[..4]))
  }

  class ProtocolItem {
    const kind: nat
    const maxSize: nat
    var size: nat
    var sizeBytes: nat
    var bytesRead: nat
    var memory: seq<Byte>

    /** The bytes of this item that have been read. */
    ghost var taken: seq<Byte>

    ghost predicate IsFresh()
      reads this
    {
      size == 0 && sizeBytes == 0 && bytesRead == 0 && taken == []
    }

    /** In the middle of integers, or of the length of a string. */
    ghost predicate InFixed()
      reads this
    {
      && size > 0 && bytesRead <= sizeBytes && (bytesRead > 0 ==> sizeBytes <= |memory|) && bytesRead <= |memory|
      && taken == memory[..bytesRead]
      && if kind == STRING then size == 1 && sizeBytes == 4 else size == maxSize && sizeBytes == size * kind
    }

    /** In the middle of the bytes of a string. */
    ghost predicate InText()
      reads this
    {
      && kind == STRING && 0 < size == sizeBytes <= maxSize && bytesRead <= sizeBytes
      && |taken| == 4 + bytesRead && Length(taken) == size
      && bytesRead <= |memory| && taken[4..] == memory[..bytesRead] && (bytesRead > 0 ==> sizeBytes <= |memory|)
    }

    ghost predicate Valid()
      reads this
    {
      && (kind == STRING || kind == BYTE || kind == INT16 || kind == INT32) && maxSize > 0
      && (IsFresh() || ((InFixed() || InText()) && bytesRead < sizeBytes))
    }

    /** The whole item has been read, and is in memory in the order of the host. */
    ghost predicate Complete()
      reads this
    {
      match kind
      case 0 => InText() && bytesRead == sizeBytes <= |memory|
      case 1 => size == maxSize == |taken| && maxSize <= |memory| && memory[..maxSize] == taken
      case 2 => size == maxSize && |taken| == 2 * maxSize <= |memory| && Swapped16(taken, memory, maxSize)
      case _ => size == maxSize && |taken| == 4 * maxSize <= |memory| && Swapped32(taken, memory, maxSize)
    }

    constructor (kind: nat, maxSize: nat)
      requires maxSize > 0 && (kind == STRING || kind == BYTE || kind == INT16 || kind == INT32)
      ensures Valid() && IsFresh() && this.kind == kind && this.maxSize == maxSize
    {
      this.kind, this.maxSize := kind, maxSize;
      size, sizeBytes, bytesRead, memory, taken := 0, 0, 0, [], [];
    }

    /** Works out how much to read, and makes room for it. */
    method Start()
      requires Valid()
      modifies this
      ensures (InFixed() || InText()) && bytesRead < sizeBytes <= |memory| && taken == old(taken)
    {
      if size == 0 {
        if kind > 0 {
          size := maxSize;
          sizeBytes := size * kind;
        } else {
          size := 1;
          sizeBytes := 4;
        }
      }
      if |memory| < sizeBytes {
        memory := memory + seq(sizeBytes - |memory|, _ => 0);
      }
    }

    /** Reads until the item is full, or there is nothing more to read for now. */
    method Fill(conn: Connection) returns (result: ProtocolResult)
      requires (InFixed() || InText()) && bytesRead < sizeBytes <= |memory|
      modifies `bytesRead, `memory, `taken, conn
      ensures (InFixed() || InText()) && sizeBytes <= |memory| && taken + conn.stream == old(taken + conn.stream)
      ensures bytesRead <= sizeBytes && result != BadData && (result == Success <==> bytesRead == sizeBytes)
      ensures |conn.events| < |old(conn.events)| || (old(conn.events) == [] && conn.events == [] && result == WaitData)
      ensures Honest(old(conn.stream), old(conn.events), conn.stream, conn.events, result == SocketError)
    {
      hide *;
      HonestAtFirst(conn.stream, conn.events);
      Inside();
      while sizeBytes > bytesRead
        invariant (InFixed() || InText()) && bytesRead <= sizeBytes <= |memory|
        invariant taken + conn.stream == old(taken + conn.stream)
        invariant |conn.events| < |old(conn.events)| || (conn.events == old(conn.events) && bytesRead < sizeBytes)
        invariant Honest(old(conn.stream), old(conn.events), conn.stream, conn.events, false)
        decreases |conn.events|
      {
        ghost var s, e := conn.stream, conn.events;
        var r := conn.Read(sizeBytes - bytesRead);
        HonestOn(old(conn.stream), old(conn.events), s, e, conn.stream, conn.events, r.Error?);
        match r {
          case Got(bytes) =>
            Regroup(taken, bytes, conn.stream);
            Store(bytes);
          case EIntr =>
          case EAgain => return WaitData;
          case Error => return SocketError;
        }
      }
      return Success;
    }

    lemma Inside()
      requires InFixed() || InText()
      ensures bytesRead <= sizeBytes
    {
    }

    method Store(bytes: seq<Byte>)
      requires (InFixed() || InText()) && bytesRead + |bytes| <= sizeBytes <= |memory|
      modifies `bytesRead, `memory, `taken
      ensures (InFixed() || InText()) && sizeBytes <= |memory| && taken == old(taken) + bytes
      ensures bytesRead == old(bytesRead) + |bytes|
    {
      ghost var was := memory[..bytesRead];
      memory := memory[..bytesRead] + bytes + memory[bytesRead + |bytes|..];
      assert memory[..bytesRead + |bytes|] == was + bytes;
      ghost var more := taken + bytes;
      assert |taken| >= 4 ==> more[..4] == taken[..4] && more[4..] == taken[4..] + bytes;
      bytesRead, taken := bytesRead + |bytes|, more;
    }

    /** Turns the integers in memory into the order of the host. */
    method Convert16(n: nat)
      requires 2 * n <= |memory|
      modifies `memory
      ensures |memory| == |old(memory)| && Swapped16(old(memory), memory, n)
    {
      ghost var was := memory;
      for i := 0 to n
        invariant |memory| == |was| && Swapped16(was, memory, i) && memory[2 * i..] == was[2 * i..]
      {
        var x := Host16(Slice(memory, 2 * i, 2));
        assert Slice(memory, 2 * i, 2) == memory[2 * i..][..2] == Slice(was, 2 * i, 2);
        ghost var before := memory;
        memory := memory[..2 * i] + Memory16(Swap16(x)) + memory[2 * i + 2..];
        assert forall j :: 0 <= j < i ==> Slice(memory, 2 * j, 2) == Slice(before, 2 * j, 2);
        assert Slice(memory, 2 * i, 2) == Memory16(Swap16(x));
        assert memory[2 * i + 2..] == before[2 * i..][2..] == was[2 * i + 2..];
      }
    }

    method Convert32(n: nat)
      requires 4 * n <= |memory|
      modifies `memory
      ensures |memory| == |old(memory)| && Swapped32(old(memory), memory, n)
    {
      ghost var was := memory;
      for i := 0 to n
        invariant |memory| == |was| && Swapped32(was, memory, i) && memory[4 * i..] == was[4 * i..]
      {
        var x := Host32(Slice(memory, 4 * i, 4));
        assert Slice(memory, 4 * i, 4) == memory[4 * i..][..4] == Slice(was, 4 * i, 4);
        ghost var before := memory;
        memory := memory[..4 * i] + Memory32(Swap32(x)) + memory[4 * i + 4..];
        assert forall j :: 0 <= j < i ==> Slice(memory, 4 * j, 4) == Slice(before, 4 * j, 4);
        assert Slice(memory, 4 * i, 4) == Memory32(Swap32(x));
        assert memory[4 * i + 4..] == before[4 * i..][4..] == was[4 * i + 4..];
      }
    }

    /** Puts a full item into the order of the host, by the width of its integers. */
    method Convert()
      requires Full()
      modifies `memory
      ensures |memory| == |old(memory)|
      ensures old(InText()) || kind != STRING ==> Complete() && (kind == STRING ==> size == sizeBytes)
      ensures !old(InText()) && kind == STRING ==>
        size == 1 && sizeBytes == 4 && |taken| == 4 && Host32(memory[..4]) == Length(taken)
    {
      WidthOf();
      hide Host32, Memory32, Swap32, Host16, Memory16, Swap16;
      if sizeBytes / size == 2 {
        Convert16(size);
        SwappedPrefix16(old(memory), taken, memory, size);
      } else if sizeBytes / size == 4 {
        Convert32(size);
        SwappedPrefix(old(memory), taken, memory, size);
        if kind == STRING && !old(InText()) {
          LengthSwapped(taken, memory);
        }
      }
    }

    /** The width of an integer, or 1 for text, follows from the two sizes. */
    lemma WidthOf()
      requires Full()
      ensures size > 0 && sizeBytes / size == if InText() then 1 else if kind == STRING then 4 else kind
    {
      if InText() {
        Width(size, 1);
      } else {
        Width(size, if kind == STRING then 4 else kind);
      }
    }

    /** In the middle of an item, or rather at its end. */
    ghost predicate Full()
      reads this
    {
      && (kind == STRING || kind == BYTE || kind == INT16 || kind == INT32) && maxSize > 0
      && (InFixed() || InText()) && bytesRead == sizeBytes <= |memory|
    }

    /** The length of a string has been read: its text is next, or the next length. */
    method TakeLength()
      requires kind == STRING && maxSize > 0 && size == 1 && sizeBytes == 4 && |taken| == 4 <= |memory|
      requires Host32(memory[..4]) == Length(taken) <= maxSize
      modifies this
      ensures Valid() && taken == if Length(old(taken)) == 0 then [] else old(taken)
    {
      size := Host32(memory[..4]);
      sizeBytes := size;
      bytesRead := 0;
      if size == 0 {
        taken := [];
      }
    }

    /** Reads on where the last call stopped. A string's length of zero is followed by the next length. */
    method Read(conn: Connection) returns (result: ProtocolResult)
      requires Valid()
      modifies this, conn
      ensures result == WaitData ==> Valid()
      ensures result == Success ==> Complete()
      ensures result == BadData ==> kind == STRING && |taken| == 4 && Length(taken) > maxSize
      ensures SkipsEmpty(old(taken + conn.stream), taken + conn.stream, kind)
      ensures |conn.events| < |old(conn.events)| || (old(conn.events) == [] && conn.events == [] && result == WaitData)
      ensures Honest(old(conn.stream), old(conn.events), conn.stream, conn.events, result == SocketError)
      decreases |conn.events|
    {
      hide InFixed, InText, Complete, Swapped16, Swapped32, Honest, Chunks;
      Start();
      ghost var s, e := conn.stream, conn.events;
      result := Fill(conn);
      if result != Success {
        return;
      }
      ghost var s', e' := conn.stream, conn.events;
      Convert();
      if kind == STRING && size == 1 && sizeBytes == 4 {
        if Host32(memory[..4]) > maxSize {
          size := Host32(memory[..4]);
          return BadData;
        }
        SkipLength(taken, conn.stream);
        TakeLength();
        result := Read(conn);
        HonestOn(s, e, s', e', conn.stream, conn.events, result == SocketError);
      }
    }
  }

  lemma Width(size: nat, width: nat)
    requires size > 0
    ensures (size * width) / size == width
  {
    assert size * width == width * size;
    Quotient(size * width, size, width);
  }

  lemma SwappedPrefix(memory: seq<Byte>, net: seq<Byte>, after: seq<Byte>, n: nat)
    requires Swapped32(memory, after, n) && |net| == 4 * n && net == memory[..|net|]
    ensures Swapped32(net, after, n)
  {
    forall i | 0 <= i < n ensures Slice(net, 4 * i, 4) == Slice(memory, 4 * i, 4) {
    }
  }

  lemma SwappedPrefix16(memory: seq<Byte>, net: seq<Byte>, after: seq<Byte>, n: nat)
    requires Swapped16(memory, after, n) && |net| == 2 * n && net == memory[..|net|]
    ensures Swapped16(net, after, n)
  {
    forall i | 0 <= i < n ensures Slice(net, 2 * i, 2) == Slice(memory, 2 * i, 2) {
    }
  }

  lemma LengthSwapped(taken: seq<Byte>, memory: seq<Byte>)
    requires Swapped32(taken, memory, 1) && |taken| == 4
    ensures Host32(memory[..4]) == Length(taken)
  {
    hide Host32, Memory32, Swap32;
    Memory32RoundTrip(Swap32(Host32(Slice(taken, 0, 4))));
    assert memory[..4] == Slice(memory, 4 * 0, 4) && taken[..4] == Slice(taken, 4 * 0, 4);
  }

  lemma SkipLength(taken: seq<Byte>, stream: seq<Byte>)
    requires |taken| == 4
    ensures |taken + stream| >= 4 && Length(taken + stream) == Length(taken) && (taken + stream)[4..] == [] + stream
  {
    assert (taken + stream)[..4] == taken[..4];
  }

  /** after is what is left of before once the strings of length zero at its start are gone. */
  ghost predicate SkipsEmpty(before: seq<Byte>, after: seq<Byte>, kind: nat)
    decreases |before|
  {
    before == after || (kind == STRING && |before| >= 4 && Length(before) == 0 && SkipsEmpty(before[4..], after, kind))
  }

  /** The first n integers of both are the same, in network order on the one side and in the host's on the other. */
  ghost predicate Swapped16(net: seq<Byte>, memory: seq<Byte>, n: nat)
  {
    2 * n <= |net| && 2 * n <= |memory| &&
    forall i :: 0 <= i < n ==> Slice(memory, 2 * i, 2) == Memory16(Swap16(Host16(Slice(net, 2 * i, 2))))
  }

  ghost predicate Swapped32(net: seq<Byte>, memory: seq<Byte>, n: nat)
  {
    4 * n <= |net| && 4 * n <= |memory| &&
    forall i :: 0 <= i < n ==> Slice(memory, 4 * i, 4) == Memory32(Swap32(Host32(Slice(net, 4 * i, 4))))
  }

  function Slice(s: seq<Byte>, from: nat, n: nat): (r: seq<Byte>)
    requires from + n <= |s|
    ensures |r| == n
  {
    s[from..from + n]
  }

  // ---------------------------------------------------------------- from the writer to the reader

  /** Calls the reader again and again, until it is done or the network has nothing more to offer. */
  method Receive(item: ProtocolItem, conn: Connection) returns (result: ProtocolResult)
    requires item.Valid()
    modifies item, conn
    ensures result == WaitData ==> conn.events == [] && item.Valid()
    ensures Honest(old(conn.stream), old(conn.events), conn.stream, conn.events, result == SocketError)
    ensures result == Success ==> item.Complete()
    ensures result == BadData ==> item.kind == STRING && |item.taken| == 4 && Length(item.taken) > item.maxSize
    ensures SkipsEmpty(old(item.taken + conn.stream), item.taken + conn.stream, item.kind)
  {
    hide Honest, Chunks, SkipsEmpty;
    ghost var all, s, e := item.taken + conn.stream, conn.stream, conn.events;
    result := item.Read(conn);
    while result == WaitData && conn.events != []
      invariant result == WaitData ==> item.Valid()
      invariant result == Success ==> item.Complete()
      invariant result == BadData ==> item.kind == STRING && |item.taken| == 4 && Length(item.taken) > item.maxSize
      invariant SkipsEmpty(all, item.taken + conn.stream, item.kind)
      invariant Honest(old(conn.stream), old(conn.events), conn.stream, conn.events, result == SocketError)
      decreases |conn.events|
    {
      ghost var before, s', e' := item.taken + conn.stream, conn.stream, conn.events;
      result := item.Read(conn);
      HonestOn(s, e, s', e', conn.stream, conn.events, result == SocketError);
      SkipsOn(all, before, item.taken + conn.stream, item.kind);
    }
  }

  lemma {:induction false} SkipsOn(a: seq<Byte>, b: seq<Byte>, c: seq<Byte>, kind: nat)
    requires SkipsEmpty(a, b, kind) && SkipsEmpty(b, c, kind)
    ensures SkipsEmpty(a, c, kind)
    decreases |a|
  {
    if a != b {
      SkipsOn(a[4..], b, c, kind);
    }
  }

  lemma {:induction false} NetAt32(data: seq<Card32>, i: nat)
    requires i < |data|
    ensures Slice(W.AllNet32(data), 4 * i, 4) == Net32(data[i])
    decreases |data|
  {
    var front := data[..|data| - 1];
    if i < |front| {
      NetAt32(front, i);
      assert Slice(W.AllNet32(data), 4 * i, 4) == Slice(W.AllNet32(front), 4 * i, 4);
    }
  }

  lemma {:induction false} NetAt16(data: seq<Card16>, i: nat)
    requires i < |data|
    ensures Slice(W.AllNet16(data), 2 * i, 2) == Net16(data[i])
    decreases |data|
  {
    var front := data[..|data| - 1];
    if i < |front| {
      NetAt16(front, i);
      assert Slice(W.AllNet16(data), 2 * i, 2) == Slice(W.AllNet16(front), 2 * i, 2);
    }
  }

  lemma Split(a: seq<Byte>, b: seq<Byte>, c: seq<Byte>, d: seq<Byte>)
    requires a + b == c + d && |a| == |c|
    ensures a == c && b == d
  {
    assert a == (a + b)[..|a|] == (c + d)[..|c|] == c;
    assert b == (a + b)[|a|..] == (c + d)[|c|..] == d;
  }

  /** Whatever the chunks, the integers that were written are the ones that are read, and nothing else is. */
  method ReceiveInts32(conn: Connection, ghost data: seq<Card32>, n: nat, ghost rest: seq<Byte>)
      returns (result: ProtocolResult, item: ProtocolItem)
    requires conn.stream == W.AllNet32(data) + rest && n == |data| > 0
    modifies conn
    ensures result != BadData && (result == WaitData ==> conn.events == [])
    ensures result == Success ==> conn.stream == rest && 4 * n <= |item.memory|
    ensures Honest(old(conn.stream), old(conn.events), conn.stream, conn.events, result == SocketError)
    ensures Failed !in old(conn.events) && Chunks(old(conn.events)) >= 4 * n ==> result == Success
    ensures result == Success ==> forall i :: 0 <= i < n ==> Host32(Slice(item.memory, 4 * i, 4)) == data[i]
  {
    item := new ProtocolItem(INT32, n);
    assert item.taken + conn.stream == conn.stream;
    result := Receive(item, conn);
    if result == Success {
      Split(item.taken, conn.stream, W.AllNet32(data), rest);
      forall i | 0 <= i < n ensures Host32(Slice(item.memory, 4 * i, 4)) == data[i] {
        NetAt32(data, i);
        Memory32RoundTrip(Swap32(data[i]));
        Memory32RoundTrip(data[i]);
      }
    }
  }

  method ReceiveInts16(conn: Connection, ghost data: seq<Card16>, n: nat, ghost rest: seq<Byte>)
      returns (result: ProtocolResult, item: ProtocolItem)
    requires conn.stream == W.AllNet16(data) + rest && n == |data| > 0
    modifies conn
    ensures result != BadData && (result == WaitData ==> conn.events == [])
    ensures result == Success ==> conn.stream == rest && 2 * n <= |item.memory|
    ensures Honest(old(conn.stream), old(conn.events), conn.stream, conn.events, result == SocketError)
    ensures Failed !in old(conn.events) && Chunks(old(conn.events)) >= 2 * n ==> result == Success
    ensures result == Success ==> forall i :: 0 <= i < n ==> Host16(Slice(item.memory, 2 * i, 2)) == data[i]
  {
    item := new ProtocolItem(INT16, n);
    assert item.taken + conn.stream == conn.stream;
    result := Receive(item, conn);
    if result == Success {
      Split(item.taken, conn.stream, W.AllNet16(data), rest);
      forall i | 0 <= i < n ensures Host16(Slice(item.memory, 2 * i, 2)) == data[i] {
        NetAt16(data, i);
        Memory16RoundTrip(Swap16(data[i]));
        Memory16RoundTrip(data[i]);
      }
    }
  }

  lemma LengthOfText(text: seq<Byte>, rest: seq<Byte>)
    requires |text| < 0x1_0000_0000
    ensures |W.NetString(text) + rest| >= 4 && Length(W.NetString(text) + rest) == |text|
    ensures (W.NetString(text) + rest)[4..] == text + rest
  {
    hide Memory32, Host32, Swap32;
    var s := W.NetString(text) + rest;
    var m := Net32(|text|);
    assert s == m + (text + rest);
    assert s[..4] == m && s[4..] == text + rest;
    Memory32RoundTrip(Swap32(|text|));
    Memory32RoundTrip(|text|);
  }

  /** Whatever the chunks, a string that is not empty and not too long arrives as it was written; an empty one
      before it leaves no trace. */
  method ReceiveText(conn: Connection, ghost empties: nat, ghost text: seq<Byte>, maxSize: nat, ghost rest: seq<Byte>)
      returns (result: ProtocolResult, item: ProtocolItem)
    requires 0 < |text| <= maxSize && |text| < 0x1_0000_0000
    requires conn.stream == Empties(empties) + (W.NetString(text) + rest)
    modifies conn
    ensures result != BadData && (result == WaitData ==> conn.events == [])
    ensures Honest(old(conn.stream), old(conn.events), conn.stream, conn.events, result == SocketError)
    ensures Failed !in old(conn.events) && Chunks(old(conn.events)) >= 4 * empties + 4 + |text| ==> result == Success
    ensures result == Success ==> conn.stream == rest && item.size == |text| <= |item.memory| && item.memory[..item.size] == text
  {
    hide Honest, Chunks, SkipsEmpty, Empties;
    item := new ProtocolItem(STRING, maxSize);
    assert item.taken + conn.stream == conn.stream;
    result := Receive(item, conn);
    if result == Success || result == BadData {
      TextArrives(empties, text, rest, item.taken, conn.stream, item.maxSize);
    } else if result == WaitData {
      TextIsComplete(item, empties, text, rest, conn.stream);
      NoMoreChunks(old(conn.stream), old(conn.events), conn.stream);
      assert |W.NetString(text) + rest| == 4 + |text| + |rest|;
    } else {
      FailureIsAnnounced(old(conn.stream), old(conn.events), conn.stream, conn.events);
    }
  }

  lemma FailureIsAnnounced(s: seq<Byte>, e: seq<Event>, s': seq<Byte>, e': seq<Event>)
    requires Honest(s, e, s', e', true)
    ensures Failed in e
  {
  }

  lemma NoMoreChunks(s: seq<Byte>, e: seq<Event>, s': seq<Byte>)
    requires Honest(s, e, s', [], false)
    ensures s' == [] || |s'| + Chunks(e) <= |s|
  {
  }

  /** A reader still waiting for a text has not used up what it takes to read it. */
  lemma TextIsComplete(item: ProtocolItem, n: nat, text: seq<Byte>, rest: seq<Byte>, stream: seq<Byte>)
    requires item.Valid() && item.kind == STRING && 0 < |text| < 0x1_0000_0000
    requires SkipsEmpty(Empties(n) + (W.NetString(text) + rest), item.taken + stream, STRING)
    ensures |stream| > |rest| && |Empties(n)| == 4 * n
  {
    EmptiesLeft(n, text, rest, item.taken + stream);
    if |item.taken| >= 4 {
      assert (item.taken + stream)[..4] == item.taken[..4];
      EmptiesAreSkipped(n, text, rest, item.taken + stream);
      LengthOfText(text, rest);
    }
  }

  lemma {:induction false} EmptiesLeft(n: nat, text: seq<Byte>, rest: seq<Byte>, after: seq<Byte>)
    requires 0 < |text| < 0x1_0000_0000 && SkipsEmpty(Empties(n) + (W.NetString(text) + rest), after, STRING)
    ensures |after| >= 4 + |text| + |rest| && |Empties(n)| == 4 * n
  {
    var s := W.NetString(text) + rest;
    if n == 0 {
      assert Empties(0) + s == s;
      LengthOfText(text, rest);
    } else {
      var more := Empties(n - 1) + s;
      assert Empties(n) + s == W.NetString([]) + more;
      LengthOfText([], more);
      assert [] + more == more;
      EmptiesLength(n);
      if Empties(n) + s != after {
        EmptiesLeft(n - 1, text, rest, after);
      }
    }
  }

  lemma {:induction false} EmptiesLength(n: nat)
    ensures |Empties(n)| == 4 * n
  {
    if n > 0 {
      EmptiesLength(n - 1);
    }
  }

  lemma TextArrives(n: nat, text: seq<Byte>, rest: seq<Byte>, taken: seq<Byte>, stream: seq<Byte>, maxSize: nat)
    requires 0 < |text| < 0x1_0000_0000 && |text| <= maxSize
    requires SkipsEmpty(Empties(n) + (W.NetString(text) + rest), taken + stream, STRING)
    requires |taken| >= 4 && Length(taken) != 0
    ensures Length(taken) == |text|
    ensures |taken| == 4 + |text| ==> stream == rest && taken[4..] == text
  {
    hide SkipsEmpty, Empties;
    assert Length(taken + stream) == Length(taken) by {
      assert (taken + stream)[..4] == taken[..4];
    }
    EmptiesAreSkipped(n, text, rest, taken + stream);
    LengthOfText(text, rest);
    if |taken| == 4 + |text| {
      Split(taken, stream, W.NetString(text), rest);
    }
  }

  /** n strings of length zero. */
  ghost function Empties(n: nat): seq<Byte>
  {
    if n == 0 then [] else W.NetString([]) + Empties(n - 1)
  }

  /** A reader that has four bytes of a length that is not zero has skipped all the empty strings, and no more. */
  lemma {:induction false} EmptiesAreSkipped(n: nat, text: seq<Byte>, rest: seq<Byte>, after: seq<Byte>)
    requires 0 < |text| < 0x1_0000_0000
    requires SkipsEmpty(Empties(n) + (W.NetString(text) + rest), after, STRING) && |after| >= 4 && Length(after) != 0
    ensures after == W.NetString(text) + rest
  {
    hide W.NetString, Length;
    var s := W.NetString(text) + rest;
    if n == 0 {
      assert Empties(0) + s == s;
      LengthOfText(text, rest);
    } else {
      var more := Empties(n - 1) + s;
      assert Empties(n) + s == W.NetString([]) + more;
      LengthOfText([], more);
      assert [] + more == more;
      EmptiesAreSkipped(n - 1, text, rest, after);
    }
  }
}
