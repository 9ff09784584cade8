/** The incremental receiver of iss/receiver.cpp: a growing buffer, an offset of what has been looked at,
    and a parser that can stop and go on at any byte. */
module Receivers {
  import opened Common
  import opened Packets

  datatype Kind = NoPacket | BinaryPacket | TextPacket
  datatype Part = NoPart | Header | Data

  class Receiver {
    var kind: Kind
    var part: Part
    var packetSize: nat
    var textStart: nat
    var data: array<Byte>
    var size: nat                   // bytes of `data` in use
    var offset: nat                 // bytes already looked at
    var delivered: seq<Packet>      // what the callback has been given

    ghost function Buffer(): Bytes
      requires size <= data.Length
      reads this, data
    {
      data[..size]
    }

    ghost function AsProgress(): Progress
      requires size <= data.Length
      reads this, data
    {
      Progress(Buffer(), delivered)
    }

    ghost predicate Valid()
      reads this, data
    {
      && offset <= size <= data.Length
      && match kind
         case NoPacket => offset == 0
         case BinaryPacket =>
           && size > 0 && data[0] == BINARY_START
           && (part == Header ==> offset == 1)
           && (part == Data ==> offset == 5 && packetSize == Size(data[1..5]))
           && part != NoPart
         case TextPacket =>
           && size > 0 && data[0] != BINARY_START && textStart == 0
           && (offset == 0 || offset + 4 <= size)
           && forall j :: 0 <= j < offset ==> !Ends(Buffer(), j)
    }

    constructor ()
      ensures Valid() && AsProgress() == Progress([], [])
    {
      kind, part, packetSize, textStart := NoPacket, NoPart, 0, 0;
      data := new Byte[0];
      size, offset, delivered := 0, 0, [];
    }

    /** Make room for `more` bytes after those in use. */
    method Reserve(more: nat)
      requires size <= data.Length
      modifies this`data
      ensures size + more <= data.Length && Buffer() == old(Buffer()) && (fresh(data) || data == old(data))
    {
      if data.Length < size + more {
        var room := new Byte[size + more];
        forall i | 0 <= i < size { room[i] := data[i]; }
        data := room;
      }
    }

    /** Store a chunk after the bytes in use, with more room if they do not fit. */
    method Append(chunk: Bytes)
      requires Valid()
      modifies this, data
      ensures Valid() && AsProgress() == Progress(old(Buffer()) + chunk, old(delivered))
      ensures kind == old(kind)
      ensures fresh(data) || data == old(data)
    {
      ghost var before := Buffer();
      assert size > 0 ==> before[0] == data[0];
      assert kind == BinaryPacket && part == Data ==> before[1..5] == data[1..5];
      Reserve(|chunk|);
      assert Buffer() == before;
      forall i | 0 <= i < |chunk| { data[size + i] := chunk[i]; }
      size := size + |chunk|;
      assert Buffer() == before + chunk;
      assert before != [] ==> data[0] == Buffer()[0] == before[0];
      if kind == BinaryPacket && part == Data { assert data[1..5] == Buffer()[1..5] == before[1..5]; }
      if kind == TextPacket { NoEndAppears(before, chunk, offset); }
    }

    /** Drop the bytes up to the offset. */
    method Shift()
      requires offset <= size <= data.Length
      modifies this`size, this`offset, data
      ensures size <= data.Length && offset == 0 && Buffer() == old(Buffer()[offset..])
    {
      var left := size - offset;
      forall i | 0 <= i < left { data[i] := data[offset + i]; }
      size, offset := left, 0;
    }

    /** `memmem` on `len` bytes from `from`: the first place where all of `needle` stands. */
    method Memmem(from: nat, len: nat, needle: Bytes, ghost hay: Bytes) returns (found: Option<nat>)
      requires from + len <= data.Length && hay == data[..from + len] && needle != []
      ensures match found
              case None => forall j :: from <= j ==> !Stands(hay, needle, j)
              case Some(e) => from <= e && Stands(hay, needle, e) &&
                              forall j :: from <= j < e ==> !Stands(hay, needle, j)
    {
      if len < |needle| { return None; }
      var limit := from + len;
      var ptr := from;
      while ptr < limit
        invariant from <= ptr <= limit
        invariant forall j :: from <= j < ptr ==> !Stands(hay, needle, j)
      {
        var k := 0;
        while ptr + k < limit && k < |needle| && data[ptr + k] == needle[k]
          invariant 0 <= k <= |needle| && ptr + k <= limit
          invariant forall i :: 0 <= i < k ==> hay[ptr + i] == needle[i]
        {
          k := k + 1;
        }
        if k == |needle| {
          assert hay[ptr..ptr + |needle|] == needle;
          return Some(ptr);
        }
        assert ptr + |needle| <= limit ==> hay[ptr..ptr + |needle|][k] != needle[k];
        ptr := ptr + 1;
      }
      return None;
    }

    /** Hand a packet to the callback and drop it together with everything before it. */
    method PacketFinished(packet: Packet, sizeToRead: nat)
      requires offset + sizeToRead <= size <= data.Length
      modifies this, data
      ensures Valid() && kind == NoPacket && data == old(data)
      ensures AsProgress() == Progress(old(Buffer()[offset + sizeToRead..]), old(delivered) + [packet])
    {
      delivered := delivered + [packet];
      offset := offset + sizeToRead;
      Shift();
      kind := NoPacket;
    }

    method PacketContinueText()
      requires Valid() && kind == TextPacket
      modifies this, data
      ensures Valid() && data == old(data) && AsProgress() == Settle(old(AsProgress()))
    {
      ghost var before := Buffer();
      FirstEndIsFirst(before, 0);
      var found := Memmem(offset, size - offset, TEXT_FINISH, before);
      match found
      case Some(e) =>
        FirstEndIs(before, 0, e);
        assert data[textStart..e] == before[..e];
        assert First(before) == Some((Text(before[..e]), e + 4));
        PacketFinished(Text(data[textStart..e]), e - offset + |TEXT_FINISH|);
      case None =>
        if size - offset >= |TEXT_FINISH| { offset := size - |TEXT_FINISH|; }
    }

    method BinaryPacketData()
      requires Valid() && kind == BinaryPacket && part == Data
      modifies this, data
      ensures Valid() && data == old(data) && AsProgress() == Settle(old(AsProgress()))
    {
      ghost var buf := Buffer();
      assert buf[1..5] == data[1..5];
      if size - offset < packetSize { return; }
      var end := offset + packetSize;
      var payload := data[offset..end];
      assert |buf[offset..end]| == |payload| && forall i :: 0 <= i < |payload| ==> buf[offset..end][i] == payload[i];
      assert buf[offset..end] == payload;
      PacketFinished(Binary(payload), packetSize);
    }

    method BinaryPacketHeader()
      requires Valid() && kind == BinaryPacket && part == Header
      modifies this, data
      ensures Valid() && data == old(data) && AsProgress() == Settle(old(AsProgress()))
    {
      if size - offset < 4 { return; }
      packetSize := Size(data[offset..offset + 4]);
      offset := offset + 4;
      part := Data;
      BinaryPacketData();
    }

    method PacketStarted()
      requires Valid() && kind == NoPacket
      modifies this, data
      ensures Valid() && data == old(data) && AsProgress() == Settle(old(AsProgress()))
    {
      if size < 1 { return; }
      if data[0] == BINARY_START {
        kind, part := BinaryPacket, Header;
        offset := offset + 1;
        BinaryPacketHeader();
      } else {
        kind, textStart := TextPacket, 0;
        PacketContinueText();
      }
    }

    /** One call does what `Packets.Receive` says, from whatever point of a packet it has to go on. */
    method Receive(chunk: Bytes)
      requires Valid()
      modifies this, data
      ensures Valid() && (fresh(data) || data == old(data))
      ensures AsProgress() == Packets.Receive(old(AsProgress()), chunk)
    {
      if |chunk| == 0 { return; }
      Append(chunk);
      match kind
      case NoPacket => PacketStarted();
      case BinaryPacket => if part == Header { BinaryPacketHeader(); } else { BinaryPacketData(); }
      case TextPacket => PacketContinueText();
    }

    /** Every run, from a new receiver: after any chunks, the state is what the chunks say, so that the packets
        delivered and those still in the buffer are the packets of the whole stream. */
    method ReceiveAll(chunks: seq<Bytes>)
      requires Valid() && AsProgress() == Progress([], [])
      modifies this, data
      ensures Valid() && AsProgress() == Packets.ReceiveAll(chunks)
      ensures delivered + Parse(Buffer()) == Parse(Concat(chunks))
    {
      for i := 0 to |chunks|
        invariant Valid() && (fresh(data) || data == old(data))
        invariant AsProgress() == Packets.ReceiveAll(chunks[..i])
      {
        assert chunks[..i + 1][..i] == chunks[..i];
        Receive(chunks[i]);
      }
      assert chunks[..|chunks|] == chunks;
      DeliveredThenBuffered(chunks);
    }
  }
}
