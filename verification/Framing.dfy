/** The command stream of a driver (supertel/task2): what a shell sends. */
module Commands {
  import opened Common

  const PR_DRV_COMMAND: Byte := 0x01

  /** A command of the driver with index `idx`; lengths and the number of arguments are sent as one byte. */
  datatype Command = Command(idx: Byte, args: seq<Bytes>)

  predicate Sendable(c: Command) {
    |c.args| < 256 && forall i :: 0 <= i < |c.args| ==> |c.args[i]| < 256
  }

  /** Known to the driver, with no more arguments than it takes (`arities` of all its commands). */
  predicate ValidCommand(c: Command, arities: seq<nat>) {
    Sendable(c) && c.idx < |arities| && |c.args| <= arities[c.idx]
  }

  function EncodeArgs(args: seq<Bytes>): Bytes
    requires forall i :: 0 <= i < |args| ==> |args[i]| < 256
  {
    if args == [] then []
    else EncodeArgs(args[..|args| - 1]) + [|args[|args| - 1]|] + args[|args| - 1]
  }

  function Encode(c: Command): Bytes
    requires Sendable(c)
  {
    [PR_DRV_COMMAND, c.idx, |c.args|] + EncodeArgs(c.args)
  }

  /** The bytes of a command: its signature, its index and the number of its arguments, and then the length and the
      bytes of each of them. */
  lemma {:induction false} EncodeIs(idx: Byte, args: seq<Bytes>, arg: Bytes)
    requires |args| < 255 && |arg| < 256 && forall i :: 0 <= i < |args| ==> |args[i]| < 256
    ensures Encode(Command(idx, [])) == [1, idx, 0]
    ensures Encode(Command(idx, args + [arg])) == Encode(Command(idx, args))[2 := |args| + 1] + [|arg|] + arg
  {
    var longer := args + [arg];
    assert longer[..|args|] == args;
    assert Encode(Command(idx, args))[2 := |args| + 1] == [1, idx, |args| + 1] + EncodeArgs(args);
  }

  /** Where argument `j` starts, or, for the number of arguments, where the command ends. */
  function ArgStart(c: Command, j: nat): nat
    requires Sendable(c) && j <= |c.args|
  {
    3 + |EncodeArgs(c.args[..j])|
  }

  /** An argument is its length and its bytes, and the next one follows. */
  lemma {:induction false} ArgAt(c: Command, j: nat)
    requires Sendable(c) && j < |c.args|
    ensures ArgStart(c, j + 1) == ArgStart(c, j) + 1 + |c.args[j]| <= |Encode(c)| == ArgStart(c, |c.args|)
    ensures Encode(c)[ArgStart(c, j)] == |c.args[j]| && Encode(c)[ArgStart(c, j) + 1..ArgStart(c, j + 1)] == c.args[j]
  {
    assert c.args[..j + 1][..j] == c.args[..j];
    assert c.args[..|c.args|] == c.args;
    EncodeArgsPrefix(c.args, j + 1);
    var head, e, n := EncodeArgs(c.args[..j]), Encode(c), ArgStart(c, j + 1);
    var a := [PR_DRV_COMMAND, c.idx, |c.args|] + (head + [|c.args[j]|] + c.args[j]);
    assert e[..n] == a;
    assert e[ArgStart(c, j)] == a[ArgStart(c, j)] && e[ArgStart(c, j) + 1..n] == a[ArgStart(c, j) + 1..];
  }

  lemma {:induction false} EncodeArgsPrefix(args: seq<Bytes>, j: nat)
    requires j <= |args| && forall i :: 0 <= i < |args| ==> |args[i]| < 256
    ensures EncodeArgs(args[..j]) <= EncodeArgs(args)
    decreases |args|
  {
    if j < |args| {
      assert args[..|args| - 1][..j] == args[..j];
      EncodeArgsPrefix(args[..|args| - 1], j);
    } else {
      assert args[..j] == args;
    }
  }

  function EncodeAll(cs: seq<Command>): Bytes
    requires forall i :: 0 <= i < |cs| ==> Sendable(cs[i])
  {
    if cs == [] then [] else Encode(cs[0]) + EncodeAll(cs[1..])
  }

  // ---------------------------------------------------------------- the encoder

  /** The length of an argument is cut to a byte, and so is what is sent of it. */
  function Cut(args: seq<Bytes>): (r: seq<Bytes>)
    ensures |r| == |args| && forall i :: 0 <= i < |args| ==> r[i] == args[i][..|args[i]| % 256]
  {
    seq(|args|, i requires 0 <= i < |args| => args[i][..|args[i]| % 256])
  }

  function Total(args: seq<Bytes>): nat {
    if args == [] then 0 else Total(args[..|args| - 1]) + |args[|args| - 1]|
  }

  /** The arguments fit the buffer, and fill it if and only if none is cut. */
  lemma {:induction false} CutFits(args: seq<Bytes>)
    ensures |EncodeArgs(Cut(args))| <= |args| + Total(args)
    ensures |EncodeArgs(Cut(args))| == |args| + Total(args) <==> forall i :: 0 <= i < |args| ==> |args[i]| < 256
  {
    if args != [] {
      var head := args[..|args| - 1];
      CutFits(head);
      assert Cut(args)[..|args| - 1] == Cut(head);
      assert forall i :: 0 <= i < |head| ==> head[i] == args[i];
    }
  }

  lemma {:induction false} CutPrefix(args: seq<Bytes>, i: nat)
    requires i < |args|
    ensures i + |EncodeArgs(Cut(args)[..i])| + 1 + |args[i]| % 256 <= i + |EncodeArgs(Cut(args)[..i + 1])|
    ensures EncodeArgs(Cut(args)[..i + 1]) ==
            EncodeArgs(Cut(args)[..i]) + [|args[i]| % 256] + args[i][..|args[i]| % 256]
    ensures |EncodeArgs(Cut(args)[..i + 1])| <= |args| + Total(args)
  {
    assert Cut(args)[..i + 1][..i] == Cut(args)[..i];
    EncodeArgsPrefix(Cut(args), i + 1);
    CutFits(args);
  }

  /** The encoder of the shell: a moving pointer over a buffer for the whole arguments. What it sends is the command
      with its arguments cut and, behind it, one byte for each byte cut off: the command alone if and only if it is
      sendable. */
  method EncodeCommand(c: Command) returns (b: array<Byte>)
    requires |c.args| < 256
    ensures var e := Encode(Command(c.idx, Cut(c.args)));
            && |e| <= b.Length == 3 + |c.args| + Total(c.args) && b[..|e|] == e
            && (|e| == b.Length <==> Sendable(c))
    ensures Sendable(c) ==> b[..] == Encode(c)
  {
    var required := LengthRequired(c.args);
    b := new Byte[required];
    b[0], b[1], b[2] := PR_DRV_COMMAND, c.idx, |c.args|;
    assert b[..3] == [PR_DRV_COMMAND, c.idx, |c.args|];
    CutFits(c.args);
    var ptr := WriteArgs(b, c.args);
    if Sendable(c) {
      NothingCut(c.args);
      assert b[..ptr] == b[..];
    }
  }

  lemma {:induction false} NothingCut(args: seq<Bytes>)
    requires forall i :: 0 <= i < |args| ==> |args[i]| < 256
    ensures Cut(args) == args
  {
    forall i | 0 <= i < |args| ensures Cut(args)[i] == args[i] {
      assert args[i][..|args[i]|] == args[i];
    }
  }

  method LengthRequired(args: seq<Bytes>) returns (required: nat)
    ensures required == 3 + |args| + Total(args)
  {
    required := 3 + |args|;
    for i := 0 to |args|
      invariant required == 3 + |args| + Total(args[..i])
    {
      assert args[..i + 1][..i] == args[..i];
      required := required + |args[i]|;
    }
    assert args[..|args|] == args;
  }

  /** The arguments, from the third byte on. */
  method WriteArgs(b: array<Byte>, args: seq<Bytes>) returns (ptr: nat)
    requires b.Length == 3 + |args| + Total(args)
    modifies b
    ensures ptr == 3 + |EncodeArgs(Cut(args))| <= b.Length && b[..ptr] == old(b[..3]) + EncodeArgs(Cut(args))
  {
    ghost var first, e := b[..3], [];
    ptr := 3;
    for i := 0 to |args|
      invariant e == EncodeArgs(Cut(args)[..i]) && |e| <= |args| + Total(args)
      invariant ptr == 3 + |e| && b[..ptr] == first + e
    {
      CutPrefix(args, i);
      OneMoreArg(first, e, |args[i]| % 256, args[i][..|args[i]| % 256]);
      ptr := WriteArg(b, ptr, args[i]);
      e := e + [|args[i]| % 256] + args[i][..|args[i]| % 256];
    }
    assert Cut(args)[..|args|] == Cut(args);
  }

  lemma OneMoreArg(first: Bytes, e: Bytes, len: Byte, arg: Bytes)
    ensures first + e + [len] + arg == first + (e + [len] + arg)
  {
    Join(first, e + [len], arg);
    Join(first, e, [len]);
  }

  /** One argument, behind its length. */
  method WriteArg(b: array<Byte>, ptr: nat, arg: Bytes) returns (end: nat)
    requires ptr + 1 + |arg| % 256 <= b.Length
    modifies b
    ensures end == ptr + 1 + |arg| % 256 && b[..end] == old(b[..ptr]) + [|arg| % 256] + arg[..|arg| % 256]
  {
    var len := |arg| % 256;
    b[ptr] := len;
    forall k | 0 <= k < len { b[ptr + 1 + k] := arg[k]; }
    return ptr + 1 + len;
  }
}

/** A connection of the driver (supertel/task2/src/driver-core.c and unix-socket-server.c): it asks the socket for
    just as many bytes as the next step of a command needs, and calls a handler when the command is complete. */
module DriverConnections {
  import opened Common
  import opened Commands

  datatype Phase = Reading | Writing | Closed

  /** A call of a command's handler; without `argv` some of the arguments it is given lie outside of the buffer. */
  datatype Call = Call(idx: Byte, argc: nat, argv: Option<seq<Bytes>>)

  datatype Step = Arrive(n: nat) | Readable(limit: nat) | Written

  /** What a command's handler is called with: the arguments, if there is at most one. */
  function CallOf(c: Command): Call {
    Call(c.idx, |c.args|, if |c.args| <= 1 then Some(c.args) else None)
  }

  function Calls(cs: seq<Command>): (r: seq<Call>)
    ensures |r| == |cs| && forall i :: 0 <= i < |cs| ==> r[i] == CallOf(cs[i])
  {
    seq(|cs|, i requires 0 <= i < |cs| => CallOf(cs[i]))
  }

  function Prepend(args: seq<Bytes>, rest: Option<seq<Bytes>>): Option<seq<Bytes>> {
    if rest == None then None else Some(args + rest.value)
  }

  /** `count` arguments that follow one another in the buffer from `at` on, unless they leave it. */
  function Argv(buffer: Bytes, at: nat, count: nat): Option<seq<Bytes>>
    decreases count
  {
    if count == 0 then Some([])
    else if at >= |buffer| || at + 1 + buffer[at] > |buffer| then None
    else
      var end := at + 1 + buffer[at];
      Prepend([buffer[at + 1..end]], Argv(buffer, end, count - 1))
  }

  /** How far into command `c` a connection is that waits for `wanted` bytes of it, with `received` arguments
      complete and the next one at `at`. */
  ghost predicate Within(c: Command, wanted: nat, received: nat, at: nat)
    requires Sendable(c)
  {
    || (received == 0 && at == 0 && wanted in {1, 3})
    || (received < |c.args| && at == ArgStart(c, received)
        && (wanted == at + 1 || wanted == at + 1 + |c.args[received]|))
  }

  lemma {:induction false} WithinIsInside(c: Command, wanted: nat, received: nat, at: nat)
    requires Sendable(c) && Within(c, wanted, received, at)
    ensures wanted <= |Encode(c)|
  {
    if received < |c.args| { ArgAt(c, received); }
  }

  /** What the reader decides when the buffer is as full as it was asked to be: to ask for more, to call the
      handler, or to close the connection. */
  datatype Move = Ask(wanted: nat, received: nat, at: nat) | Handle(call: Call) | Refuse

  function Decide(buffer: Bytes, received: nat, at: nat, arities: seq<nat>): Move
    requires 0 < |buffer| && at <= |buffer|
  {
    if buffer[0] != PR_DRV_COMMAND then Refuse
    else if |buffer| < 3 then Ask(3, received, at)
    else if buffer[1] >= |arities| || buffer[2] > arities[buffer[1]] then Refuse
    else if buffer[2] == 0 || buffer[2] == received then Handle(Call(buffer[1], buffer[2], Argv(buffer, 3, buffer[2])))
    else
      var start := if at == 0 then 3 else at;
      if |buffer| < start + 1 then Ask(start + 1, received, start)
      else
        var end := start + 1 + buffer[start];
        if |buffer| < end then Ask(end, received, start)
        else if received + 1 < buffer[2] then Ask(end + 1, received + 1, end)
        else Handle(Call(buffer[1], buffer[2], Argv(buffer, start, buffer[2])))
  }

  /** The arguments from the last one on are all of them if there is one, and leave the buffer if there are more. */
  lemma {:induction false} ArgvFromLast(c: Command)
    requires Sendable(c) && c.args != []
    ensures Argv(Encode(c), ArgStart(c, |c.args| - 1), |c.args|) == CallOf(c).argv
  {
    var n := |c.args|;
    ArgAt(c, n - 1);
    assert Argv(Encode(c), |Encode(c)|, n - 1) == if n == 1 then Some([]) else None;
    if n == 1 { assert [c.args[0]] + [] == c.args; }
  }

  /** On the bytes of a valid command the reader asks for bytes of that command only, and calls its handler
      exactly when it has them all. */
  lemma {:induction false} DecideWithin(c: Command, arities: seq<nat>, wanted: nat, received: nat, at: nat)
    requires ValidCommand(c, arities) && Within(c, wanted, received, at)
    ensures at <= wanted <= |Encode(c)| && wanted > 0
    ensures match Decide(Encode(c)[..wanted], received, at, arities)
            case Ask(w, r, a) => w > wanted && Within(c, w, r, a)
            case Handle(call) => call == CallOf(c) && wanted == |Encode(c)|
            case Refuse => false
  {
    WithinIsInside(c, wanted, received, at);
    var e := Encode(c);
    assert e[0] == PR_DRV_COMMAND && e[1] == c.idx && e[2] == |c.args|;
    if |c.args| > 0 {
      ArgAt(c, received);
      ArgvFromLast(c);
      assert c.args[..0] == [] && e[..|e|] == e;
      if received + 1 < |c.args| { ArgAt(c, received + 1); }
    }
  }

  /** The handlers called are those of the first commands, and the bytes at hand are the start of the next one. */
  ghost predicate Framed(commands: seq<Command>, arities: seq<nat>, handled: seq<Call>, phase: Phase,
                         buffer: Bytes, coming: Bytes, wanted: nat, received: nat, at: nat)
  {
    && (forall i :: 0 <= i < |commands| ==> ValidCommand(commands[i], arities))
    && |handled| <= |commands| && handled == Calls(commands[..|handled|])
    && match phase
       case Closed => false
       case Writing => coming == EncodeAll(commands[|handled|..])
       case Reading =>
         && buffer + coming == EncodeAll(commands[|handled|..])
         && if |handled| == |commands| then wanted == 1 && received == at == 0
            else Within(commands[|handled|], wanted, received, at)
  }

  /** A full buffer holds the start of the current command. */
  lemma {:induction false} CurrentCommand(commands: seq<Command>, arities: seq<nat>, handled: seq<Call>,
                                          buffer: Bytes, coming: Bytes, wanted: nat, received: nat, at: nat)
    requires Framed(commands, arities, handled, Reading, buffer, coming, wanted, received, at) && |buffer| == wanted
    ensures |handled| < |commands| && wanted <= |Encode(commands[|handled|])|
    ensures buffer == Encode(commands[|handled|])[..wanted]
    ensures buffer + coming == Encode(commands[|handled|]) + EncodeAll(commands[|handled| + 1..])
  {
    if |handled| < |commands| {
      var c := commands[|handled|];
      WithinIsInside(c, wanted, received, at);
      assert commands[|handled|..][1..] == commands[|handled| + 1..];
      assert buffer == (buffer + coming)[..wanted];
    }
  }

  /** The decision keeps the framing. */
  lemma {:induction false} DecisionKeeps(commands: seq<Command>, arities: seq<nat>, handled: seq<Call>,
                                         buffer: Bytes, coming: Bytes, wanted: nat, received: nat, at: nat)
    requires Framed(commands, arities, handled, Reading, buffer, coming, wanted, received, at)
    requires |buffer| == wanted
    ensures 0 < wanted && at <= wanted
    ensures match Decide(buffer, received, at, arities)
            case Ask(w, r, a) => w > wanted && Framed(commands, arities, handled, Reading, buffer, coming, w, r, a)
            case Handle(call) => Framed(commands, arities, handled + [call], Writing, buffer, coming, wanted,
                                        received, at)
            case Refuse => false
  {
    CurrentCommand(commands, arities, handled, buffer, coming, wanted, received, at);
    var c := commands[|handled|];
    DecideWithin(c, arities, wanted, received, at);
    if Decide(buffer, received, at, arities).Handle? {
      assert Encode(c)[..wanted] == Encode(c);
      assert coming == (buffer + coming)[wanted..] && buffer == Encode(c);
      assert commands[..|handled| + 1][..|handled|] == commands[..|handled|];
      assert Calls(commands[..|handled| + 1]) == handled + [CallOf(c)];
    }
  }

  /** A call that the driver may make: of one of its commands, with no more arguments than it takes. */
  predicate Allowed(call: Call, arities: seq<nat>) {
    call.idx < |arities| && call.argc <= arities[call.idx]
  }

  /** How far a connection has asked, whatever the bytes are: for the first byte, for the header, for the length of the
      argument at `at`, or for all of it. */
  predicate Placed(buffer: Bytes, wanted: nat, at: nat) {
    || (at == 0 && wanted in {1, 3})
    || (at >= 3 && (wanted == at + 1 || (at < |buffer| && wanted == at + 1 + buffer[at])))
  }

  /** On any bytes: the connection is closed if and only if they do not start a command or are the header of one that
      the driver does not take; a handler is called only for one that it takes; and otherwise more bytes are asked
      for. */
  lemma {:induction false} DecideOnAnything(buffer: Bytes, received: nat, at: nat, arities: seq<nat>)
    requires 0 < |buffer| && at <= |buffer| && Placed(buffer, |buffer|, at)
    ensures match Decide(buffer, received, at, arities)
            case Ask(w, r, a) => w > |buffer| && Placed(buffer, w, a)
            case Handle(call) => |buffer| >= 3 && call.idx == buffer[1] && call.argc == buffer[2]
                && Allowed(call, arities)
            case Refuse => true
    ensures Decide(buffer, received, at, arities).Refuse? <==>
            buffer[0] != 1 || (|buffer| >= 3 && (buffer[1] >= |arities| || buffer[2] > arities[buffer[1]]))
  {
  }

  class Connection {
    const arities: seq<nat>
    var phase: Phase
    var buffer: Bytes             // bytes of the current command that have been read
    var wanted: nat               // the size up to which the buffer is to be filled
    var argc: nat
    var argsReceived: nat
    var lastArgumentOffset: nat
    var socket: Bytes             // bytes that have arrived and not been read
    var future: Bytes             // bytes sent that have not arrived
    var handled: seq<Call>
    const commands: seq<Command>  // everything the peer sends

    /** Whatever the peer sends: between two events the connection waits for at least one byte, or for a response to be
        written, or is closed, and it has called no handler that it should not. */
    ghost predicate Sound()
      reads this
    {
      && (forall i :: 0 <= i < |handled| ==> Allowed(handled[i], arities))
      && (phase == Reading ==> |buffer| < wanted && Placed(buffer, wanted, lastArgumentOffset))
    }

    /** What the peer sends are valid commands. */
    ghost predicate Valid()
      reads this
    {
      && Sound()
      && Framed(commands, arities, handled, phase, buffer, socket + future, wanted, argsReceived, lastArgumentOffset)
    }

    /** A new connection over which any bytes come. */
    constructor OfStream(arities: seq<nat>, stream: Bytes)
      ensures Sound() && handled == [] && phase == Reading && this.arities == arities && socket + future == stream
    {
      this.arities, this.commands := arities, [];
      phase, buffer, wanted, argc, argsReceived, lastArgumentOffset := Reading, [], 1, 0, 0, 0;
      socket, handled, future := [], [], stream;
    }

    /** A new connection, once its greeting has been sent. */
    constructor (arities: seq<nat>, commands: seq<Command>)
      requires forall i :: 0 <= i < |commands| ==> ValidCommand(commands[i], arities)
      ensures Valid() && handled == [] && this.commands == commands && this.arities == arities && socket == []
      ensures future == EncodeAll(commands)
    {
      this.arities, this.commands := arities, commands;
      phase, buffer, wanted, argc, argsReceived, lastArgumentOffset := Reading, [], 1, 0, 0, 0;
      socket, handled, future := [], [], EncodeAll(commands);
      new;
      assert commands[0..] == commands && [] + ([] + future) == future;
    }

    /** `reader`: it touches no byte outside of the buffer, whatever the peer has sent. */
    method Reader()
      requires phase == Reading && |buffer| == wanted > 0 && lastArgumentOffset <= wanted
      modifies `phase, `wanted, `argc, `argsReceived, `lastArgumentOffset, `handled
      ensures match Decide(buffer, old(argsReceived), old(lastArgumentOffset), arities)
              case Ask(w, r, a) =>
                phase == Reading && wanted == w && argsReceived == r && lastArgumentOffset == a
                    && handled == old(handled)
              case Handle(call) => phase == Writing && handled == old(handled) + [call]
              case Refuse => phase == Closed && handled == old(handled)
    {
      if buffer[0] != PR_DRV_COMMAND {
        phase := Closed;
        return;
      }
      if wanted < 3 {
        wanted := 3;
        return;
      }
      var idx, count := buffer[1], buffer[2];
      argc := count;
      if idx >= |arities| || count > arities[idx] {
        phase := Closed;
        return;
      }
      if count == 0 || argc == argsReceived {
        CallHandler(idx, count, 3);
        return;
      }
      if lastArgumentOffset == 0 { lastArgumentOffset := 3; }
      if wanted < lastArgumentOffset + 1 {
        wanted := lastArgumentOffset + 1;
        return;
      }
      var len := buffer[lastArgumentOffset];
      if wanted < lastArgumentOffset + 1 + len {
        wanted := lastArgumentOffset + 1 + len;
        return;
      }
      var dca := lastArgumentOffset;
      argsReceived := argsReceived + 1;
      lastArgumentOffset := lastArgumentOffset + 1 + len;
      if argsReceived < argc {
        wanted := lastArgumentOffset + 1;
        return;
      }
      CallHandler(idx, count, dca);
    }

    /** The arguments are collected from `at` on. */
    method CallHandler(idx: Byte, count: nat, at: nat)
      modifies `phase, `handled
      ensures handled == old(handled) + [Call(idx, count, Argv(buffer, at, count))] && phase == Writing
    {
      var argv := CollectArgs(at, count);
      handled := handled + [Call(idx, count, argv)];
      phase := Writing;
    }

    method CollectArgs(at: nat, count: nat) returns (argv: Option<seq<Bytes>>)
      ensures argv == Argv(buffer, at, count)
    {
      var args: seq<Bytes>, dca: nat := [], at;
      PrependNothing(Argv(buffer, at, count));
      for i := 0 to count
        invariant Argv(buffer, at, count) == Prepend(args, Argv(buffer, dca, count - i))
      {
        if dca >= |buffer| || dca + 1 + buffer[dca] > |buffer| { return None; }
        var end := dca + 1 + buffer[dca];
        PrependTwice(args, [buffer[dca + 1..end]], Argv(buffer, end, count - i - 1));
        args := args + [buffer[dca + 1..end]];
        dca := end;
      }
      assert args + [] == args;
      return Some(args);
    }

    /** Bytes move from the socket to the buffer, as many as there are, are wanted and are yielded at once. */
    method TakeBytes(limit: nat)
      requires phase == Reading && |buffer| < wanted && Placed(buffer, wanted, lastArgumentOffset)
      modifies `buffer, `socket
      ensures |buffer| <= wanted && Placed(buffer, wanted, lastArgumentOffset)
      ensures buffer + (socket + future) == old(buffer + (socket + future))
      ensures |socket| == 0 || |buffer| == wanted || (limit > 0 && |buffer| == |old(buffer)| + limit)
    {
      var n := wanted - |buffer|;
      if |socket| < n { n := |socket|; }
      if 0 < limit < n { n := limit; }
      assert buffer + (socket + future) == (buffer + socket[..n]) + (socket[n..] + future);
      buffer, socket := buffer + socket[..n], socket[n..];
    }

    /** The reader is called on a full buffer. */
    method React()
      requires phase == Reading && |buffer| == wanted && Placed(buffer, wanted, lastArgumentOffset)
      requires forall i :: 0 <= i < |handled| ==> Allowed(handled[i], arities)
      modifies `phase, `wanted, `argc, `argsReceived, `lastArgumentOffset, `handled
      ensures Sound()
      ensures old(Framed(commands, arities, handled, phase, buffer, socket + future, wanted, argsReceived,
                         lastArgumentOffset))
              ==> Valid()
    {
      DecideOnAnything(buffer, argsReceived, lastArgumentOffset, arities);
      if Framed(commands, arities, handled, phase, buffer, socket + future, wanted, argsReceived, lastArgumentOffset) {
        DecisionKeeps(commands, arities, handled, buffer, socket + future, wanted, argsReceived, lastArgumentOffset);
      }
      Reader();
    }

    /** `data_may_be_read`: fill the buffer up to what is wanted, and call the reader when it is full. */
    method DataMayBeRead(limit: nat)
      requires Sound()
      modifies this
      ensures Sound() && (old(Valid()) ==> Valid())
      ensures old(phase) == Reading && old(socket) != [] ==> |socket| < |old(socket)|
    {
      if phase != Reading || socket == [] { return; }
      TakeBytes(limit);
      if |buffer| == wanted { React(); }
    }

    /** `writer`: the response has been sent, and the next command may come. */
    method Writer()
      requires Sound()
      modifies this
      ensures Sound() && (old(Valid()) ==> Valid())
      ensures old(phase) == Writing ==> phase == Reading && buffer == [] && wanted == 1
      ensures handled == old(handled) && socket == old(socket) && future == old(future)
    {
      if phase != Writing { return; }
      argc, argsReceived, lastArgumentOffset := 0, 0, 0;
      buffer, wanted, phase := [], 1, Reading;
      assert [] + (socket + future) == socket + future;
    }

    /** Some more bytes arrive. */
    method Arrival(n: nat)
      requires Sound()
      modifies this
      ensures Sound() && (old(Valid()) ==> Valid())
      ensures socket + future == old(socket + future) && handled == old(handled) && phase == old(phase)
      ensures |future| == if n < |old(future)| then |old(future)| - n else 0
    {
      var k := if n < |future| then n else |future|;
      assert socket + future == (socket + future[..k]) + future[k..];
      socket, future := socket + future[..k], future[k..];
    }

    method DoStep(step: Step)
      requires Sound()
      modifies this
      ensures Sound() && (old(Valid()) ==> Valid())
    {
      match step
      case Arrive(n) => Arrival(n);
      case Readable(limit) => DataMayBeRead(limit);
      case Written => Writer();
    }

    /** Every run over any bytes: no handler is called but of a command that the driver has, with no more arguments
        than it takes. */
    method RunOnAnything(steps: seq<Step>)
      requires Sound()
      modifies this
      ensures Sound() && (old(Valid()) ==> Valid())
      ensures forall i :: 0 <= i < |handled| ==>
                handled[i].idx < |arities| && handled[i].argc <= arities[handled[i].idx]
    {
      for i := 0 to |steps|
        invariant Sound() && (old(Valid()) ==> Valid())
      {
        DoStep(steps[i]);
      }
    }

    /** Every run: whatever the pattern of arrivals and partial reads, the handlers called so far are those of the
        first commands, in order, with their index and number of arguments, and with the arguments themselves if and
        only if there is at most one; and once everything has arrived and been read, and the last response written,
        those of all commands. */
    method Run(steps: seq<Step>)
      requires Valid()
      modifies this
      ensures Valid() && handled == Calls(commands[..|handled|])
      ensures |handled| <= |commands|
      ensures forall i :: 0 <= i < |handled| ==>
                && handled[i].idx == commands[i].idx && handled[i].argc == |commands[i].args|
                && (handled[i].argv == Some(commands[i].args) <==> |commands[i].args| <= 1)
      ensures socket == future == [] && phase == Reading ==> handled == Calls(commands) && buffer == []
    {
      RunOnAnything(steps);
      if socket == future == [] && phase == Reading {
        assert buffer + (socket + future) == buffer;
        NothingLeft(commands, arities, handled, buffer, wanted, argsReceived, lastArgumentOffset);
        assert commands[..|commands|] == commands;
      }
    }
  }

  lemma {:induction false} PrependNothing(rest: Option<seq<Bytes>>)
    ensures Prepend([], rest) == rest
  {
    if rest.Some? { assert [] + rest.value == rest.value; }
  }

  lemma {:induction false} PrependTwice(a: seq<Bytes>, b: seq<Bytes>, rest: Option<seq<Bytes>>)
    ensures Prepend(a, Prepend(b, rest)) == Prepend(a + b, rest)
  {
    if rest.Some? { Join(a, b, rest.value); }
  }

  /** A connection that waits for bytes when none are left has handled all commands. */
  lemma {:induction false} NothingLeft(commands: seq<Command>, arities: seq<nat>, handled: seq<Call>,
                                       buffer: Bytes, wanted: nat, received: nat, at: nat)
    requires Framed(commands, arities, handled, Reading, buffer, [], wanted, received, at) && |buffer| < wanted
    ensures |handled| == |commands| && buffer == []
  {
    assert buffer + [] == buffer;
    if |handled| < |commands| {
      WithinIsInside(commands[|handled|], wanted, received, at);
    }
  }
}
