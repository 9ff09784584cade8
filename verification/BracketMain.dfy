/** Reading lines in blocks of any size (cqg/lib/Input.cpp). */
module Inputs {
  import opened Common
  import opened BracketReport

  function Concat(blocks: seq<string>): string {
    if blocks == [] then "" else blocks[0] + Concat(blocks[1..])
  }

  /** What the outcome of every `read` will be: non-empty blocks that fit the buffer, then the end of the
      file or an error. */
  datatype Source = Source(blocks: seq<string>, errno: nat)

  /** A piece, the end of its line if that is there, and what has not been read. */
  function Rest(piece: string, ended: bool, unread: string): string {
    if ended then piece + ("\n" + unread) else piece + unread
  }

  class Input {
    const buffer: array<char>
    var size: nat              // characters of the buffer in use
    var next: nat              // where the next piece starts, `size` when another block is needed
    var errno: nat
    var source: Source

    ghost predicate Valid()
      reads this, buffer
    {
      && next <= size <= buffer.Length
      && forall b :: b in source.blocks ==> 0 < |b| <= buffer.Length
    }

    /** Everything that has not been returned yet. */
    ghost function Unread(): string
      requires Valid()
      reads this, buffer
    {
      buffer[next..size] + Concat(source.blocks)
    }

    /** A piece of the text `left`, up to `len` characters from `line` in the buffer, has been returned, and the rest of
        the text is still unread; or there was nothing left. */
    ghost predicate Returned(left: string, found: bool, line: Option<nat>, len: int)
      reads this, buffer
    {
      match line
      case None => left == "" && errno == source.errno
      case Some(start) =>
        && Valid() && 0 <= len && start + len <= size
        && var piece := buffer[start..start + len];
           '\n' !in piece && left == Rest(piece, found, Unread())
    }

    constructor (src: Source, maxBufferSize: nat)
      requires maxBufferSize > 0 && forall b :: b in src.blocks ==> 0 < |b| <= maxBufferSize
      ensures Valid() && fresh(buffer) && Unread() == Concat(src.blocks) && source == src && errno == 0
    {
      buffer := new char[maxBufferSize];
      size, next, errno := 1, 1, 0;
      source := src;
    }

    /** `start`: an empty piece at the start of the buffer, before anything has been read. */
    method Start() returns (line: Option<nat>, len: int)
      requires Valid()
      ensures line.Some? && Returned(Unread(), false, line, len)
    {
      line, len := Some(0), 0;
      assert buffer[0..0] == "" && "" + Unread() == Unread();
    }

    /** `_readAnotherBlock`: at the end of the file or on an error the whole buffer counts as used. */
    method ReadAnotherBlock() returns (count: int)
      requires Valid() && next == size
      modifies this, buffer
      ensures source.errno == old(source.errno)
      ensures old(source.blocks) != [] ==>
                count > 0 && Valid() && Unread() == old(Unread()) && next == 0 && size > 0 && errno == 0
      ensures old(source.blocks) == [] ==>
                count == (if source.errno == 0 then 0 else -1) && errno == source.errno
    {
      size := buffer.Length;
      errno := 0;
      if source.blocks == [] {
        errno := source.errno;
        return if source.errno == 0 then 0 else -1;
      }
      var block := source.blocks[0];
      assert block in source.blocks;
      forall i | 0 <= i < |block| { buffer[i] := block[i]; }
      size := |block|;
      next := 0;
      source := source.(blocks := source.blocks[1..]);
      assert buffer[..size] == block;
      return |block|;
    }

    /** `memchr`: where the delimiter first stands. */
    method FindBreak() returns (at: Option<nat>)
      requires Valid()
      ensures at == None ==> '\n' !in buffer[next..size]
      ensures at.Some? ==> next <= at.value < size && buffer[at.value] == '\n' && '\n' !in buffer[next..at.value]
    {
      for i := next to size
        invariant '\n' !in buffer[next..i]
      {
        if buffer[i] == '\n' { return Some(i); }
      }
      return None;
    }

    /** The next piece of the current line, at most up to its end; null (None) at the end of the input. */
    method ReadAndDetectNewline() returns (found: bool, line: Option<nat>, len: int)
      requires Valid()
      modifies this, buffer
      ensures source.errno == old(source.errno)
      ensures Returned(old(Unread()), found, line, len)
      ensures line == None ==> !found && len == if errno == 0 then 0 else -1
      ensures line.Some? ==> |Unread()| < |old(Unread())|
    {
      if next >= size {
        var count := ReadAnotherBlock();
        if count == 0 { return false, None, 0; }
        if count < 0 { return false, None, -1; }
      }
      assert next < size && Unread() == old(Unread());
      var start;
      found, start, len := TakePiece();
      line := Some(start);
    }

    /** `start` is where the piece stands in the buffer, until another block is read. */
    method TakePiece() returns (found: bool, start: nat, len: nat)
      requires Valid() && next < size
      modifies this`next, buffer
      ensures Returned(old(Unread()), found, Some(start), len) && |Unread()| < |old(Unread())|
    {
      start := next;
      var at := FindBreak();
      found := at.Some?;
      if found {
        len := EndPiece(at.value);
      } else {
        len := TakeAll();
      }
    }

    /** The piece ends at a line break, which is overwritten. */
    method EndPiece(at: nat) returns (len: nat)
      requires Valid() && next <= at < size && buffer[at] == '\n' && '\n' !in buffer[next..at]
      modifies this`next, buffer
      ensures Returned(old(Unread()), true, Some(old(next)), len) && |Unread()| < |old(Unread())|
    {
      ghost var piece, rest, more := buffer[next..at], buffer[at + 1..size], Concat(source.blocks);
      assert buffer[next..size] == piece + ("\n" + rest);
      EndedPiece(piece, rest, more);
      buffer[at] := '\0';
      len := at - next;
      assert buffer[next..next + len] == piece;
      next := at + 1;
      assert buffer[next..size] == rest;
    }

    /** All that is left of the buffer. */
    method TakeAll() returns (len: nat)
      requires Valid() && next < size && '\n' !in buffer[next..size]
      modifies this`next
      ensures Returned(old(Unread()), false, Some(old(next)), len) && |Unread()| < |old(Unread())|
    {
      len := size - next;
      assert buffer[next..next + len] == buffer[next..size];
      next := size;
      assert Unread() == Concat(source.blocks);
    }

    /** `readUntilNewline`: drop the rest of the line, unless its end has been met, and go on with the next one. */
    method ReadUntilNewline(already: bool) returns (found: bool, line: Option<nat>, len: int)
      requires Valid()
      modifies this, buffer
      ensures source.errno == old(source.errno)
      ensures Returned(Onward(old(Unread()), already), found, line, len)
      ensures line == None ==> !found
      ensures line.Some? ==> |Unread()| < |Onward(old(Unread()), already)| <= |old(Unread())|
    {
      if !already {
        var skipped := SkipLine();
        if !skipped { return false, None, 0; }
      }
      assert Unread() == Onward(old(Unread()), already);
      found, line, len := ReadAndDetectNewline();
    }

    /** Drop pieces up to the end of the line, or of the input. */
    method SkipLine() returns (found: bool)
      requires Valid()
      modifies this, buffer
      ensures source.errno == old(source.errno)
      ensures found ==> Valid() && Unread() == Onward(old(Unread()), false) && |Unread()| < |old(Unread())|
      ensures !found ==> Onward(old(Unread()), false) == "" && errno == source.errno
    {
      found := false;
      ghost var u, dropped := Unread(), "";
      while !found
        invariant Valid() && source.errno == old(source.errno)
        invariant '\n' !in dropped && u == Rest(dropped, found, Unread())
        decreases |Unread()|, !found
      {
        ghost var before := Unread();
        var line, len;
        found, line, len := ReadAndDetectNewline();
        if line == None {
          assert u == dropped;
          OnwardIs(dropped, "");
          return;
        }
        ghost var piece := buffer[line.value..line.value + len];
        JoinRest(dropped, piece, found, Unread());
        dropped := dropped + piece;
      }
      OnwardIs(dropped, Unread());
    }
  }

  lemma {:induction false} EndedPiece(piece: string, rest: string, more: string)
    ensures (piece + ("\n" + rest)) + more == Rest(piece, true, rest + more)
  {
    Join(piece, "\n" + rest, more);
    Join("\n", rest, more);
  }

  lemma {:induction false} JoinRest(a: string, piece: string, ended: bool, unread: string)
    ensures a + Rest(piece, ended, unread) == Rest(a + piece, ended, unread)
  {
    Join(a, piece, "\n" + unread);
    Join(a, piece, unread);
  }

  /** What is left of a text behind its first line break. */
  function Onward(text: string, already: bool): string {
    if already then text
    else if |Head(text)| < |text| then text[|Head(text)| + 1..] else ""
  }

  lemma {:induction false} OnwardIs(line: string, rest: string)
    requires '\n' !in line
    ensures Onward(line + ("\n" + rest), false) == rest && Onward(line, false) == ""
  {
    HeadIs(line, "\n" + rest);
    assert (line + ("\n" + rest))[|line| + 1..] == rest;
    assert line + "" == line;
    HeadIs(line, "");
  }

  lemma {:induction false} OnwardSplits(text: string)
    ensures text == if |Head(text)| < |text| then Head(text) + ("\n" + Onward(text, false)) else Head(text)
  {
  }
}

/** The reporting loop that joins the reader and the checker (cqg/src/main.cpp). */
module BracketProgram {
  import opened Common
  import opened BracketReport
  import opened ParenthesisCheckers
  import opened Inputs

  const RET_OK := 0
  const RET_READ_FAILURE := 1
  const RET_NOT_ALL_OK := 2

  predicate AllFine(reports: seq<Report>) {
    forall r :: r in reports ==> r.verdict == Fine
  }

  /** What is printed about a line (`printStatus`). */
  function Status(isValid: bool, openIndex: int, position: nat): Verdict {
    if isValid then Fine else if openIndex > 0 then Lacking(position) else Superfluous(position)
  }

  /** The piece at hand ends its line. */
  lemma {:induction false} LineEnds(seen: string, piece: string, unread: string, n: nat)
    requires '\n' !in seen && '\n' !in piece
    ensures Reports(seen + Rest(piece, true, unread), n) == [Report(n, Judge(seen + piece))] + Reports(unread, n + 1)
  {
    JoinRest(seen, piece, true, unread);
    ReportsOfLine(seen + piece, unread, n);
  }

  lemma {:induction false} JudgeStays(line: string, more: string)
    requires FirstExcess(line).Some?
    ensures FirstExcess(line + more).Some? && Judge(line + more) == Judge(line)
  {
    ExcessStays(line, more);
  }

  lemma {:induction false} LastLineFails(line: string, more: string, n: nat)
    requires '\n' !in line && '\n' !in more && FirstExcess(line).Some?
    ensures Reports(line + more, n) == [Report(n, Judge(line))] + Reports("", n + 1)
  {
    JudgeStays(line, more);
    ReportsOfLine(line + more, "", n);
    ReportsOfLine("", "", n + 1);
  }

  lemma {:induction false} InnerLineFails(line: string, more: string, rest: string, n: nat)
    requires '\n' !in line && '\n' !in more && FirstExcess(line).Some?
    ensures Reports(line + (more + ("\n" + rest)), n) == [Report(n, Judge(line))] + Reports(rest, n + 1)
  {
    JudgeStays(line, more);
    Join(line, more, "\n" + rest);
    ReportsOfLine(line + more, rest, n);
  }

  /** The piece at hand holds the first superfluous bracket of its line, which may go on. */
  lemma {:induction false} LineFails(seen: string, piece: string, ended: bool, unread: string, n: nat)
    requires '\n' !in seen && '\n' !in piece && FirstExcess(seen + piece).Some?
    ensures Reports(seen + Rest(piece, ended, unread), n) ==
            [Report(n, Judge(seen + piece))] + Reports(Onward(unread, ended), n + 1)
  {
    if ended {
      LineEnds(seen, piece, unread, n);
    } else {
      JoinRest(seen, piece, ended, unread);
      OnwardSplits(unread);
      if |Head(unread)| < |unread| {
        InnerLineFails(seen + piece, Head(unread), Onward(unread, false), n);
      } else {
        LastLineFails(seen + piece, Head(unread), n);
      }
    }
  }

  /** The reports so far, followed by those of what is left, are the reports of the text. */
  ghost predicate Accounts(text: string, reports: seq<Report>, seen: string, rest: string, n: nat) {
    Reports(text, 1) == reports + Reports(seen + rest, n)
  }

  lemma AccountLine(text: string, reports: seq<Report>, seen: string, rest: string, n: nat, r: Report, rest': string)
    requires Accounts(text, reports, seen, rest, n)
    requires Reports(seen + rest, n) == [r] + Reports(rest', n + 1)
    ensures Accounts(text, reports + [r], "", rest', n + 1)
  {
    assert "" + rest' == rest';
    var more := Reports(rest', n + 1);
    Join(reports, [r], more);
  }

  lemma AccountPiece(text: string, reports: seq<Report>, seen: string, piece: string, unread: string, n: nat)
    requires Accounts(text, reports, seen, Rest(piece, false, unread), n)
    ensures Accounts(text, reports, seen + piece, unread, n)
  {
    JoinRest(seen, piece, false, unread);
  }

  lemma AccountsStart(text: string)
    ensures Accounts(text, [], "", text, 1)
  {
    assert "" + text == text && [] + Reports(text, 1) == Reports(text, 1);
  }

  /** At the end of the text, what has been reported is all there is to report. */
  lemma AccountsEnd(text: string, reports: seq<Report>, seen: string, n: nat)
    requires Accounts(text, reports, seen, "", n) && '\n' !in seen && FirstExcess(seen) == None
    ensures reports == Reports(text, 1)
  {
    assert seen + "" == seen;
    ReportsOfLine(seen, "", n);
  }

  lemma FineOneMore(reports: seq<Report>, r: Report)
    ensures AllFine(reports + [r]) == (AllFine(reports) && r.verdict == Fine)
  {
    assert forall q :: q in reports + [r] <==> q in reports || q == r;
  }

  /** What the loop does with a piece before it reads on: check it, and report and start afresh if the line
      fails or ends. */
  method CheckPiece(checker: ParenthesisChecker, piece: string, ended: bool, n: nat)
    returns (failed: bool, report: Option<Report>)
    requires checker.Valid() && checker.passed == 0
    modifies checker
    ensures checker.Valid() && checker.passed == 0
    ensures failed <==> FirstExcess(old(checker.seen) + piece).Some?
    ensures report == if failed || ended then Some(Report(n, Judge(old(checker.seen) + piece))) else None
    ensures checker.seen == if failed || ended then "" else old(checker.seen) + piece
  {
    failed, report := false, None;
    var stillValid := checker.Validate(piece);
    if !stillValid {
      failed, report := true, Some(Report(n, Status(stillValid, checker.openIndex, checker.position)));
      checker.Reset();
    } else if ended {
      stillValid := checker.Done();
      report := Some(Report(n, Status(stillValid, checker.openIndex, checker.position)));
      checker.Reset();
    }
  }

  /** What has been checked is accounted for, and what is left to account for is what is read next. */
  lemma {:induction false} AccountStep(text: string, reports: seq<Report>, seen: string, piece: string, ended: bool,
                                       unread: string, n: nat)
    requires '\n' !in seen && '\n' !in piece
    requires Accounts(text, reports, seen, Rest(piece, ended, unread), n)
    ensures var failed, r := FirstExcess(seen + piece).Some?, Report(n, Judge(seen + piece));
            if failed then Accounts(text, reports + [r], "", Onward(unread, ended), n + 1)
            else if ended then Accounts(text, reports + [r], "", unread, n + 1)
            else Accounts(text, reports, seen + piece, unread, n)
  {
    var r := Report(n, Judge(seen + piece));
    if FirstExcess(seen + piece).Some? {
      LineFails(seen, piece, ended, unread, n);
      AccountLine(text, reports, seen, Rest(piece, ended, unread), n, r, Onward(unread, ended));
    } else if ended {
      LineEnds(seen, piece, unread, n);
      AccountLine(text, reports, seen, Rest(piece, ended, unread), n, r, unread);
    } else {
      AccountPiece(text, reports, seen, piece, unread, n);
    }
  }

  /** The body of the loop up to where it reads on: what has been checked is reported, and what is left to report is
      what is read next. */
  method ReportPiece(checker: ParenthesisChecker, piece: string, ended: bool, reports: seq<Report>, allOk: bool, n: nat,
                     ghost text: string, ghost unread: string)
    returns (failed: bool, reports': seq<Report>, allOk': bool, n': nat)
    requires checker.Valid() && checker.passed == 0 && '\n' !in checker.seen && '\n' !in piece
    requires Accounts(text, reports, checker.seen, Rest(piece, ended, unread), n) && allOk == AllFine(reports)
    modifies checker
    ensures checker.Valid() && checker.passed == 0 && '\n' !in checker.seen && allOk' == AllFine(reports')
    ensures Accounts(text, reports', checker.seen, Onward(unread, ended || !failed), n')
  {
    AccountStep(text, reports, checker.seen, piece, ended, unread, n);
    var report;
    failed, report := CheckPiece(checker, piece, ended, n);
    reports', allOk', n' := reports, allOk, n;
    if report.Some? {
      FineOneMore(reports, report.value);
      reports' := reports + [report.value];
      allOk' := allOk && report.value.verdict == Fine;
      n' := n + 1;
    }
  }

  /** The loop goes on with the next line after a failure, otherwise with the next piece. */
  method ReadOn(input: Input, failed: bool, ended: bool) returns (found: bool, line: Option<nat>, len: int)
    requires input.Valid()
    modifies input, input.buffer
    ensures input.source.errno == old(input.source.errno)
    ensures input.Returned(Onward(old(input.Unread()), ended || !failed), found, line, len)
    ensures line.Some? ==> |input.Unread()| < |old(input.Unread())|
  {
    if failed {
      found, line, len := input.ReadUntilNewline(ended);
    } else {
      found, line, len := input.ReadAndDetectNewline();
    }
  }

  /** The report depends on the text alone, however the input is split into blocks. */
  method CheckInput(input: Input) returns (reports: seq<Report>, code: int)
    requires input.Valid()
    modifies input, input.buffer
    ensures reports == Reports(old(input.Unread()), 1)
    ensures code == if old(input.source.errno) != 0 then 1 else if AllFine(reports) then 0 else 2
  {
    var checker := new ParenthesisChecker();
    var lineCounter: nat, allOk, newLineFound := 1, true, false;
    reports := [];
    ghost var text, rest := input.Unread(), input.Unread();
    AccountsStart(text);
    var line, len := input.Start();

    while line.Some?
      invariant fresh(checker) && checker.Valid() && checker.passed == 0 && '\n' !in checker.seen
      invariant input.Returned(rest, newLineFound, line, len)
      invariant input.source.errno == old(input.source.errno)
      invariant Accounts(text, reports, checker.seen, rest, lineCounter)
      invariant allOk == AllFine(reports)
      decreases if line.Some? then 1 + |input.Unread()| else 0
    {
      var piece := input.buffer[line.value..line.value + len];
      var failed;
      failed, reports, allOk, lineCounter :=
        ReportPiece(checker, piece, newLineFound, reports, allOk, lineCounter, text, input.Unread());
      rest := Onward(input.Unread(), newLineFound || !failed);
      newLineFound, line, len := ReadOn(input, failed, newLineFound);
    }
    AccountsEnd(text, reports, checker.seen, lineCounter);
    if input.errno != 0 { return reports, RET_READ_FAILURE; }
    code := if allOk then RET_OK else RET_NOT_ALL_OK;
  }
}
