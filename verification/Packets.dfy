/** The packet stream of iss/receiver.cpp: what a byte stream means, whole and in chunks. */
module Packets {
  import opened Common

  datatype Packet = Binary(data: Bytes) | Text(data: Bytes)

  const BINARY_START: Byte := 0x24
  const TEXT_FINISH: Bytes := [13, 10, 13, 10]

  /** The four bytes of a size, least significant first. */
  function Size(s: Bytes): nat
    requires |s| == 4
  {
    s[0] as int + 0x100 * (s[1] as int) + 0x1_0000 * (s[2] as int) + 0x100_0000 * (s[3] as int)
  }

  predicate Stands(s: Bytes, needle: Bytes, i: nat) {
    i + |needle| <= |s| && s[i..i + |needle|] == needle
  }

  predicate Ends(s: Bytes, i: nat) {
    Stands(s, TEXT_FINISH, i)
  }

  /** The first terminator at or after `i`. */
  function FirstEnd(s: Bytes, i: nat): Option<nat>
    requires i <= |s|
    decreases |s| - i
  {
    if Ends(s, i) then Some(i) else if i == |s| then None else FirstEnd(s, i + 1)
  }

  /** A complete packet at the start of `s`, with the number of bytes it takes. */
  function First(s: Bytes): (r: Option<(Packet, nat)>)
    ensures r.Some? ==> 0 < r.value.1 <= |s|
  {
    if s == [] then None
    else if s[0] == BINARY_START then
      if |s| < 5 || |s| < 5 + Size(s[1..5]) then None
      else Some((Binary(s[5..5 + Size(s[1..5])]), 5 + Size(s[1..5])))
    else
      match FirstEnd(s, 0)
      case None => None
      case Some(i) =>
        FirstEndIsFirst(s, 0);
        Some((Text(s[..i]), i + 4))
  }

  lemma {:induction false} FirstEndIsFirst(s: Bytes, i: nat)
    requires i <= |s|
    ensures match FirstEnd(s, i)
            case None => forall j :: i <= j ==> !Ends(s, j)
            case Some(e) => i <= e && Ends(s, e) && forall j :: i <= j < e ==> !Ends(s, j)
    decreases |s| - i
  {
    if !Ends(s, i) && i < |s| { FirstEndIsFirst(s, i + 1); }
  }

  /** A terminator nothing comes before is the first one. */
  lemma {:induction false} FirstEndIs(s: Bytes, i: nat, e: nat)
    requires i <= e && Ends(s, e) && forall j :: i <= j < e ==> !Ends(s, j)
    ensures FirstEnd(s, i) == Some(e)
    decreases e - i
  {
    if i < e { FirstEndIs(s, i + 1, e); }
  }

  /** More bytes bring no terminator where there were four bytes already. */
  lemma {:induction false} NoEndAppears(s: Bytes, x: Bytes, n: nat)
    requires (n == 0 || n + 4 <= |s|) && forall j :: 0 <= j < n ==> !Ends(s, j)
    ensures forall j :: 0 <= j < n ==> !Ends(s + x, j)
  {
    forall j | 0 <= j < n ensures !Ends(s + x, j) {
      assert (s + x)[j..j + 4] == s[j..j + 4];
      assert !Ends(s, j);
    }
  }

  /** All complete packets of `s`. */
  function Parse(s: Bytes): seq<Packet>
    decreases |s|
  {
    match First(s)
    case None => []
    case Some((p, n)) => [p] + Parse(s[n..])
  }

  /** More bytes do not change a packet that is complete. */
  lemma FirstExtends(s: Bytes, x: Bytes)
    requires First(s).Some?
    ensures First(s + x) == First(s)
  {
    if s[0] == BINARY_START {
      assert (s + x)[1..5] == s[1..5];
      var n := Size(s[1..5]);
      assert (s + x)[5..5 + n] == s[5..5 + n];
    } else {
      FirstEndIsFirst(s, 0);
      var e := FirstEnd(s, 0).value;
      forall j | 0 <= j < e + 1 ensures Ends(s + x, j) == Ends(s, j) {
        assert (s + x)[j..j + 4] == s[j..j + 4];
      }
      FirstEndIs(s + x, 0, e);
      assert (s + x)[..e] == s[..e];
    }
  }

  /** What is left over after all complete packets. */
  function Rest(s: Bytes): Bytes
    decreases |s|
  {
    match First(s)
    case None => s
    case Some((_, n)) => Rest(s[n..])
  }

  /** Parsing goes on where it stopped. */
  lemma {:induction false} ParseExtends(s: Bytes, x: Bytes)
    ensures Parse(s + x) == Parse(s) + Parse(Rest(s) + x)
    decreases |s|
  {
    match First(s)
    case None =>
    case Some((p, n)) =>
      FirstExtends(s, x);
      assert (s + x)[n..] == s[n..] + x;
      ParseExtends(s[n..], x);
  }

  // ---------------------------------------------------------------- chunks

  /** What one `Receive` does to the bytes at hand and the packets delivered. */
  datatype Progress = Progress(buffer: Bytes, delivered: seq<Packet>)

  /** At most one packet is delivered: the one at the start of the buffer, if it is complete. */
  function Settle(p: Progress): Progress {
    match First(p.buffer)
    case None => p
    case Some((q, n)) => Progress(p.buffer[n..], p.delivered + [q])
  }

  function Receive(p: Progress, chunk: Bytes): Progress {
    if chunk == [] then p else Settle(Progress(p.buffer + chunk, p.delivered))
  }

  function ReceiveAll(chunks: seq<Bytes>): Progress {
    if chunks == [] then Progress([], [])
    else Receive(ReceiveAll(chunks[..|chunks| - 1]), chunks[|chunks| - 1])
  }

  function Concat(chunks: seq<Bytes>): Bytes {
    if chunks == [] then [] else Concat(chunks[..|chunks| - 1]) + chunks[|chunks| - 1]
  }

  lemma {:induction false} RestExtends(s: Bytes, x: Bytes)
    ensures Rest(s + x) == Rest(Rest(s) + x)
    decreases |s|
  {
    match First(s)
    case None =>
    case Some((p, n)) =>
      FirstExtends(s, x);
      assert (s + x)[n..] == s[n..] + x;
      RestExtends(s[n..], x);
  }

  lemma {:induction false} ReceiveKeeps(p: Progress, chunk: Bytes)
    ensures Receive(p, chunk).delivered + Parse(Receive(p, chunk).buffer) == p.delivered + Parse(p.buffer + chunk)
    ensures Rest(Receive(p, chunk).buffer) == Rest(p.buffer + chunk)
  {
    if chunk == [] {
      assert p.buffer + chunk == p.buffer;
    } else if First(p.buffer + chunk).Some? {
      var (q, n) := First(p.buffer + chunk).value;
      Join(p.delivered, [q], Parse((p.buffer + chunk)[n..]));
    }
  }

  ghost predicate Accounts(p: Progress, bytes: Bytes) {
    p.delivered + Parse(p.buffer) == Parse(bytes) && Rest(p.buffer) == Rest(bytes)
  }

  lemma {:induction false} MoreAccounts(p: Progress, sofar: Bytes, chunk: Bytes)
    requires Accounts(p, sofar)
    ensures p.delivered + Parse(p.buffer + chunk) == Parse(sofar + chunk)
  {
    ParseExtends(p.buffer, chunk);
    ParseExtends(sofar, chunk);
    Join(p.delivered, Parse(p.buffer), Parse(Rest(p.buffer) + chunk));
  }

  lemma {:induction false} ReceiveAccounts(p: Progress, sofar: Bytes, chunk: Bytes)
    requires Accounts(p, sofar)
    ensures Accounts(Receive(p, chunk), sofar + chunk)
  {
    ReceiveKeeps(p, chunk);
    MoreAccounts(p, sofar, chunk);
    RestExtends(p.buffer, chunk);
    RestExtends(sofar, chunk);
  }

  /** Refinement: whatever the chunks, the packets delivered so far, followed by those still in the buffer,
      are the packets of all the bytes received. */
  lemma {:induction false} DeliveredThenBuffered(chunks: seq<Bytes>)
    ensures ReceiveAll(chunks).delivered + Parse(ReceiveAll(chunks).buffer) == Parse(Concat(chunks))
    ensures Rest(ReceiveAll(chunks).buffer) == Rest(Concat(chunks))
  {
    if chunks != [] {
      var head := chunks[..|chunks| - 1];
      DeliveredThenBuffered(head);
      ReceiveAccounts(ReceiveAll(head), Concat(head), chunks[|chunks| - 1]);
    }
  }

  /** How many packets end in the last of the chunks. */
  function EndsInLast(chunks: seq<Bytes>): int
    requires chunks != []
  {
    |Parse(Concat(chunks))| - |Parse(Concat(chunks[..|chunks| - 1]))|
  }

  predicate CaughtUp(chunks: seq<Bytes>) {
    ReceiveAll(chunks).delivered == Parse(Concat(chunks))
  }

  /** There was no backlog after any of the chunks. */
  predicate NeverBehind(chunks: seq<Bytes>) {
    CaughtUp(chunks) && (chunks != [] ==> NeverBehind(chunks[..|chunks| - 1]))
  }

  /** No chunk holds the ends of two packets. */
  predicate OneEndEach(chunks: seq<Bytes>) {
    chunks != [] ==> EndsInLast(chunks) <= 1 && OneEndEach(chunks[..|chunks| - 1])
  }

  /** No backlog is ever left exactly when no chunk holds the ends of two packets. */
  lemma {:induction false} CaughtUpExactly(chunks: seq<Bytes>)
    ensures NeverBehind(chunks) <==> OneEndEach(chunks)
  {
    if chunks != [] {
      CaughtUpExactly(chunks[..|chunks| - 1]);
      if NeverBehind(chunks[..|chunks| - 1]) { CaughtUpStep(chunks); }
    }
  }

  lemma {:induction false} CaughtUpStep(chunks: seq<Bytes>)
    requires chunks != [] && CaughtUp(chunks[..|chunks| - 1])
    ensures CaughtUp(chunks) <==> EndsInLast(chunks) <= 1
  {
    var head, chunk := chunks[..|chunks| - 1], chunks[|chunks| - 1];
    var p, q := ReceiveAll(head), ReceiveAll(chunks);
    DeliveredThenBuffered(head);
    DeliveredThenBuffered(chunks);
    assert |p.delivered + Parse(p.buffer)| == |p.delivered| + |Parse(p.buffer)|;
    assert |q.delivered + Parse(q.buffer)| == |q.delivered| + |Parse(q.buffer)|;
    if Parse(q.buffer) == [] { assert q.delivered + Parse(q.buffer) == q.delivered; }
    if chunk == [] { assert Concat(chunks) == Concat(head); }
  }

  // ---------------------------------------------------------------- the backlog

  function Min(a: nat, b: nat): nat { if a < b then a else b }

  /** The exact number delivered: with each chunk that is not empty one more, as long as there is one. */
  lemma {:induction false} DeliveredIs(chunks: seq<Bytes>)
    requires chunks != []
    ensures var before := |ReceiveAll(chunks[..|chunks| - 1]).delivered|;
            |ReceiveAll(chunks).delivered| ==
            if chunks[|chunks| - 1] == [] then before else Min(before + 1, |Parse(Concat(chunks))|)
  {
    var p, q := ReceiveAll(chunks[..|chunks| - 1]), ReceiveAll(chunks);
    DeliveredThenBuffered(chunks);
    assert |q.delivered + Parse(q.buffer)| == |q.delivered| + |Parse(q.buffer)|;
  }

  /** Packets that are complete and not delivered. */
  function Backlog(chunks: seq<Bytes>): int {
    |Parse(Concat(chunks))| - |ReceiveAll(chunks).delivered|
  }

  /** Packets that end, and calls that bring bytes, after the first `j` chunks. */
  function EndsSince(chunks: seq<Bytes>, j: nat): int
    requires j <= |chunks|
  {
    |Parse(Concat(chunks))| - |Parse(Concat(chunks[..j]))|
  }

  function BusySince(chunks: seq<Bytes>, j: nat): nat
    requires j <= |chunks|
  {
    if j == |chunks| then 0
    else BusySince(chunks[..|chunks| - 1], j) + if chunks[|chunks| - 1] == [] then 0 else 1
  }

  lemma {:induction false} BacklogStep(chunks: seq<Bytes>)
    requires chunks != []
    ensures var head := chunks[..|chunks| - 1];
            && Backlog(head) >= 0
            && Backlog(chunks) ==
               if chunks[|chunks| - 1] == [] then Backlog(head)
               else if Backlog(head) + EndsInLast(chunks) > 1 then Backlog(head) + EndsInLast(chunks) - 1
               else 0
    ensures chunks[|chunks| - 1] == [] ==> EndsInLast(chunks) == 0
  {
    var head := chunks[..|chunks| - 1];
    var p := ReceiveAll(head);
    DeliveredIs(chunks);
    DeliveredThenBuffered(head);
    assert |p.delivered + Parse(p.buffer)| == |p.delivered| + |Parse(p.buffer)|;
    if chunks[|chunks| - 1] == [] { assert Concat(chunks) == Concat(head); }
  }

  ghost predicate NeverMore(chunks: seq<Bytes>, b: int) {
    forall j :: 0 <= j <= |chunks| ==> EndsSince(chunks, j) - BusySince(chunks, j) <= b
  }

  lemma {:induction false} NeverMoreStep(chunks: seq<Bytes>, b: nat)
    requires chunks != []
    ensures var head, d := chunks[..|chunks| - 1], EndsInLast(chunks) - if chunks[|chunks| - 1] == [] then 0 else 1;
            NeverMore(chunks, b) <==> NeverMore(head, b - d)
  {
    var n := |chunks| - 1;
    var head, d := chunks[..n], EndsInLast(chunks) - if chunks[n] == [] then 0 else 1;
    forall j | 0 <= j <= n
      ensures EndsSince(chunks, j) - BusySince(chunks, j) == EndsSince(head, j) - BusySince(head, j) + d
    {
      assert head[..j] == chunks[..j];
    }
    assert chunks[..n + 1] == chunks;
    assert EndsSince(chunks, n + 1) - BusySince(chunks, n + 1) == 0;
    assert NeverMore(chunks, b) ==> forall j :: 0 <= j <= n ==> EndsSince(chunks, j) - BusySince(chunks, j) <= b;
    if NeverMore(head, b - d) {
      assert forall j :: 0 <= j <= n ==> EndsSince(head, j) - BusySince(head, j) <= b - d;
    }
    if NeverMore(chunks, b) {
      assert forall j :: 0 <= j <= n ==> EndsSince(head, j) - BusySince(head, j) <= b - d;
    }
  }

  /** How far behind the receiver is: by the most packets that have ended since some moment in excess of the calls since
      then that brought bytes. */
  lemma {:induction false} BacklogExactly(chunks: seq<Bytes>, b: nat)
    ensures Backlog(chunks) <= b <==> NeverMore(chunks, b)
  {
    if chunks == [] {
      assert chunks[..0] == chunks;
    } else {
      var n := |chunks| - 1;
      var head, e := chunks[..n], EndsInLast(chunks);
      var d := e - if chunks[n] == [] then 0 else 1;
      BacklogStep(chunks);
      NeverMoreStep(chunks, b);
      if b - d >= 0 {
        BacklogExactly(head, b - d);
      } else {
        assert head[..n] == head;
        assert EndsSince(head, n) - BusySince(head, n) == 0;
      }
    }
  }

  /** A backlog has drained if and only if since no moment more packets have ended than calls have brought bytes. */
  lemma {:induction false} DrainedExactly(chunks: seq<Bytes>)
    ensures CaughtUp(chunks) <==> forall j :: 0 <= j <= |chunks| ==> EndsSince(chunks, j) <= BusySince(chunks, j)
  {
    var q := ReceiveAll(chunks);
    BacklogExactly(chunks, 0);
    DeliveredThenBuffered(chunks);
    assert |q.delivered + Parse(q.buffer)| == |q.delivered| + |Parse(q.buffer)|;
    if Parse(q.buffer) == [] { assert q.delivered + Parse(q.buffer) == q.delivered; }
    assert NeverMore(chunks, 0) <==> forall j :: 0 <= j <= |chunks| ==> EndsSince(chunks, j) <= BusySince(chunks, j);
  }

  // ---------------------------------------------------------------- framing

  function Sized(n: nat): (s: Bytes)
    requires n < 0x1_0000_0000
    ensures |s| == 4 && Size(s) == n
  {
    var a := n / 0x100;
    var b := a / 0x100;
    [n % 0x100, a % 0x100, b % 0x100, b / 0x100]
  }

  // ---------------------------------------------------------------- the format, byte by byte

  function Power256(i: nat): nat {
    if i == 0 then 1 else 256 * Power256(i - 1)
  }

  /** A size is sent least significant byte first: byte `i` counts 256^i each. */
  lemma {:induction false} SizeIsLittleEndian(s: Bytes, i: nat)
    requires |s| == 4 && i < 4 && s[i] < 255
    ensures Size(s[i := s[i] + 1]) == Size(s) + Power256(i) && Size([0, 0, 0, 0]) == 0
  {
    assert Power256(1) == 256 && Power256(2) == 0x1_0000 && Power256(3) == 0x100_0000;
  }

  /** Any bytes that start with 0x24 and the size of `d`, least significant byte first, and go on with `d` start with
      the binary packet `d`. */
  lemma {:induction false} BinaryFormat(a: Byte, b: Byte, c: Byte, e: Byte, d: Bytes, rest: Bytes)
    requires |d| == a + 256 * b + 65536 * c + 16777216 * e
    ensures First([0x24, a, b, c, e] + d + rest) == Some((Binary(d), 5 + |d|))
  {
    var s := [0x24, a, b, c, e] + d + rest;
    assert s[1..5] == [a, b, c, e] && s[5..5 + |d|] == d;
  }

  /** Less than that is not a packet yet. */
  lemma {:induction false} BinaryNotYet(a: Byte, b: Byte, c: Byte, e: Byte, d: Bytes)
    requires |d| < a + 256 * b + 65536 * c + 16777216 * e
    ensures First([0x24, a, b, c, e] + d) == None
  {
    var s := [0x24, a, b, c, e] + d;
    assert s[1..5] == [a, b, c, e];
  }

  /** Any other bytes up to the first sequence 13, 10, 13, 10 are a text packet. */
  lemma {:induction false} TextFormat(d: Bytes, rest: Bytes)
    requires d == [] || d[0] != 0x24
    requires forall j :: 0 <= j < |d| ==> !Stands(d + [13, 10, 13, 10], [13, 10, 13, 10], j)
    ensures First(d + [13, 10, 13, 10] + rest) == Some((Text(d), |d| + 4))
  {
    var f := d + [13, 10, 13, 10];
    assert TEXT_FINISH == [13, 10, 13, 10] && forall j :: 0 <= j < |d| ==> !Ends(f, j);
    assert f[|d|..|d| + 4] == [13, 10, 13, 10] && Ends(f, |d|);
    FirstEndIs(f, 0, |d|);
    assert f[..|d|] == d && f[0] != BINARY_START;
    FirstExtends(f, rest);
  }

  /** What the sender may put into a packet. */
  predicate Sendable(p: Packet) {
    match p
    case Binary(d) => |d| < 0x1_0000_0000
    case Text(d) => (d != [] ==> d[0] != BINARY_START) && forall j :: 0 <= j < |d| ==> !Ends(d + TEXT_FINISH, j)
  }

  function Frame(p: Packet): Bytes
    requires p.Binary? ==> |p.data| < 0x1_0000_0000
  {
    match p
    case Binary(d) => [BINARY_START] + Sized(|d|) + d
    case Text(d) => d + TEXT_FINISH
  }

  /** A framed packet is read back exactly when it is sendable. */
  lemma FrameThenFirst(p: Packet)
    requires p.Binary? ==> |p.data| < 0x1_0000_0000
    ensures First(Frame(p)) == Some((p, |Frame(p)|)) <==> Sendable(p)
  {
    var s, d := Frame(p), p.data;
    match p {
      case Binary(_) =>
        assert s[1..5] == Sized(|d|) && s[5..5 + |d|] == d;
      case Text(_) =>
        FirstEndIsFirst(s, 0);
        assert Ends(s, |d|) by { assert s[|d|..|d| + 4] == TEXT_FINISH; }
        assert s[..|d|] == d;
        if Sendable(p) { FirstEndIs(s, 0, |d|); }
    }
  }

  function FrameAll(ps: seq<Packet>): Bytes
    requires forall p :: p in ps ==> Sendable(p)
  {
    if ps == [] then [] else assert Sendable(ps[0]); Frame(ps[0]) + FrameAll(ps[1..])
  }

  lemma {:induction false} FrameAllThenParse(ps: seq<Packet>)
    requires forall p :: p in ps ==> Sendable(p)
    ensures Parse(FrameAll(ps)) == ps
  {
    if ps != [] {
      assert Sendable(ps[0]);
      var f, rest := Frame(ps[0]), FrameAll(ps[1..]);
      FrameThenFirst(ps[0]);
      FirstExtends(f, rest);
      assert (f + rest)[|f|..] == rest;
      FrameAllThenParse(ps[1..]);
    }
  }

  /** Round trip: framed packets that arrive in chunks, none of which holds two packet ends, are delivered
      as they were sent. */
  lemma RoundTrip(ps: seq<Packet>, chunks: seq<Bytes>)
    requires forall p :: p in ps ==> Sendable(p)
    requires Concat(chunks) == FrameAll(ps)
    requires OneEndEach(chunks)
    ensures ReceiveAll(chunks).delivered == ps
  {
    CaughtUpExactly(chunks);
    FrameAllThenParse(ps);
  }

  lemma {:induction false} OneChunk(chunk: Bytes)
    requires chunk != []
    ensures ReceiveAll([chunk]) == Settle(Progress(chunk, [])) && Concat([chunk]) == chunk
  {
    var chunks := [chunk];
    assert |chunks[..0]| == 0 && [] + chunk == chunk;
  }

  lemma {:induction false} FirstOfTwo(f: Bytes, p: Packet, rest: Bytes)
    requires First(f) == Some((p, |f|))
    ensures f + rest != [] && Settle(Progress(f + rest, [])) == Progress(rest, [p])
            && Parse(f + rest) == [p] + Parse(rest)
  {
    FirstExtends(f, rest);
    assert (f + rest)[|f|..] == rest && [] + [p] == [p];
  }

  lemma {:induction false} OnePacket(f: Bytes, p: Packet)
    requires First(f) == Some((p, |f|))
    ensures Parse(f) == [p]
  {
    FirstOfTwo(f, p, []);
    assert f + [] == f && Parse([]) == [];
  }

  lemma {:induction false} TwoPackets(f: Bytes, p: Packet, g: Bytes, q: Packet)
    requires First(f) == Some((p, |f|)) && First(g) == Some((q, |g|))
    ensures ReceiveAll([f + g]) == Progress(g, [p]) && Parse(Concat([f + g])) == [p, q]
  {
    FirstOfTwo(f, p, g);
    OneChunk(f + g);
    OnePacket(g, q);
  }

  /** Two packets in one chunk are one too many: the second one stays in the buffer. */
  lemma {:induction false} TwoInOneChunk(p: Packet, q: Packet)
    requires Sendable(p) && Sendable(q)
    ensures var chunks := [Frame(p) + Frame(q)];
            ReceiveAll(chunks) == Progress(Frame(q), [p]) && Parse(Concat(chunks)) == [p, q] && Backlog(chunks) == 1
  {
    FrameThenFirst(p);
    FrameThenFirst(q);
    TwoPackets(Frame(p), p, Frame(q), q);
  }

  /** A text that starts with the start byte of a binary packet is not read back. */
  lemma {:induction false} DollarIsNotReadBack(d: Bytes)
    requires d != [] && d[0] == BINARY_START
    ensures var f := Frame(Text(d)); First(f) != Some((Text(d), |f|)) && (First(f).Some? ==> First(f).value.0.Binary?)
    ensures First(Frame(Text([BINARY_START]))) == None
  {
    var f := Frame(Text([BINARY_START]));
    assert f == [0x24, 13, 10, 13, 10] && f[1..5] == [13, 10, 13, 10];
  }
}
