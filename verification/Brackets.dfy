/** The report of the bracket checker (cqg), stated on the whole text. */
module BracketReport {
  import opened Common

  datatype Verdict = Fine | Superfluous(position: nat) | Lacking(position: nat)
  datatype Report = Report(line: nat, verdict: Verdict)

  /** Opening minus closing brackets. */
  function Depth(s: string): int {
    if s == "" then 0
    else Depth(s[..|s| - 1]) + match s[|s| - 1] case '(' => 1 case ')' => -1 case _ => 0
  }

  /** The index of the first closing bracket that has no partner before it. */
  function FirstExcess(s: string): (r: Option<nat>)
    ensures r.Some? ==> r.value < |s|
  {
    if s == "" then None
    else if FirstExcess(s[..|s| - 1]).Some? then FirstExcess(s[..|s| - 1])
    else if Depth(s) < 0 then Some(|s| - 1) else None
  }

  /** Characters are counted from one. */
  function Judge(line: string): Verdict {
    match FirstExcess(line)
    case Some(i) => Superfluous(i + 1)
    case None => if Depth(line) == 0 then Fine else Lacking(|line|)
  }

  /** A text up to its first line break, or all of it. */
  function Head(text: string): (h: string)
    ensures h <= text && '\n' !in h && (|h| < |text| ==> text[|h|] == '\n')
  {
    if text == "" || text[0] == '\n' then "" else [text[0]] + Head(text[1..])
  }

  /** One report a line; of a last line without a line break only superfluous brackets are reported. */
  function Reports(text: string, number: nat): seq<Report>
    decreases |text|
  {
    var line := Head(text);
    if |line| < |text| then [Report(number, Judge(line))] + Reports(text[|line| + 1..], number + 1)
    else if FirstExcess(line).Some? then [Report(number, Judge(line))]
    else []
  }

  /** No prefix of up to `n` characters has a negative depth. */
  predicate NeverNegative(s: string, n: nat)
    requires n <= |s|
  {
    forall k :: 0 <= k <= n ==> Depth(s[..k]) >= 0
  }

  lemma {:induction false} NeverNegativeBefore(s: string, n: nat)
    requires s != "" && n < |s|
    ensures NeverNegative(s, n) == NeverNegative(s[..|s| - 1], n)
  {
    var t := s[..|s| - 1];
    assert forall k :: 0 <= k <= n ==> s[..k] == t[..k];
  }

  /** The first excess is where the depth first becomes negative; without one it never does. */
  lemma {:induction false} FirstExcessIs(s: string)
    ensures FirstExcess(s) == None <==> NeverNegative(s, |s|)
    ensures FirstExcess(s).Some? ==>
              var i := FirstExcess(s).value; Depth(s[..i + 1]) < 0 && NeverNegative(s, i)
  {
    assert s[..|s|] == s;
    if s != "" {
      var t, n := s[..|s| - 1], |s| - 1;
      FirstExcessIs(t);
      NeverNegativeBefore(s, n);
      assert NeverNegative(s, |s|) <==> NeverNegative(s, n) && Depth(s) >= 0;
      if FirstExcess(t).Some? {
        var i := FirstExcess(t).value;
        NeverNegativeBefore(s, i);
        assert s[..i + 1] == t[..i + 1];
      }
    }
  }

  /** The depth counts the opening brackets up and the closing ones down. */
  lemma {:induction false} DepthCounts(s: string)
    ensures Depth(s) == multiset(s)['('] as int - multiset(s)[')'] as int
  {
    if s != "" {
      var t, c := s[..|s| - 1], s[|s| - 1];
      DepthCounts(t);
      assert s == t + [c];
    }
  }

  /** What is reported of a line: it is fine if it is balanced; otherwise the position of the first bracket that closes
      none or, without one, that brackets stay open, at the end. */
  lemma {:induction false} JudgeExactly(line: string, p: nat)
    ensures Judge(line) == Fine <==> NeverNegative(line, |line|) && Depth(line) == 0
    ensures Judge(line) == Lacking(p) <==> p == |line| && NeverNegative(line, |line|) && Depth(line) > 0
    ensures Judge(line) == Superfluous(p) <==>
            1 <= p <= |line| && Depth(line[..p]) < 0 && NeverNegative(line, p - 1)
  {
    FirstExcessIs(line);
    assert line[..|line|] == line;
    if FirstExcess(line).Some? {
      var i := FirstExcess(line).value;
      assert Depth(line[..i + 1]) < 0 && (p <= i ==> Depth(line[..p]) >= 0);
    } else if 1 <= p <= |line| {
      assert Depth(line[..p]) >= 0;
    }
  }

  /** An excess stays the first one, whatever follows. */
  lemma {:induction false} ExcessStays(s: string, t: string)
    requires FirstExcess(s).Some?
    ensures FirstExcess(s + t) == FirstExcess(s)
    decreases |t|
  {
    if t == "" {
      assert s + t == s;
    } else {
      assert (s + t)[..|s + t| - 1] == s + t[..|t| - 1];
      ExcessStays(s, t[..|t| - 1]);
    }
  }

  /** One more character of a block; an excess there is the first one of the whole block. */
  lemma {:induction false} OneMore(s: string, block: string, i: nat)
    requires i < |block|
    ensures s + block[..i] + [block[i]] == s + block[..i + 1]
    ensures FirstExcess(s + block[..i + 1]).Some? ==> FirstExcess(s + block) == FirstExcess(s + block[..i + 1])
  {
    var t := s + block[..i + 1];
    assert s + block[..i] + [block[i]] == t && s + block == t + block[i + 1..];
    if FirstExcess(t).Some? { ExcessStays(t, block[i + 1..]); }
  }

  /** Without an excess the depth is not negative. */
  lemma {:induction false} DepthOfProper(s: string)
    requires FirstExcess(s) == None
    ensures Depth(s) >= 0
  {
  }

  lemma {:induction false} HeadIs(line: string, rest: string)
    requires '\n' !in line && (rest == "" || rest[0] == '\n')
    ensures Head(line + rest) == line
  {
    if line == "" {
      assert line + rest == rest;
    } else {
      assert (line + rest)[1..] == line[1..] + rest;
      HeadIs(line[1..], rest);
    }
  }

  /** The report of a text that starts with a whole line, or is the last line. */
  lemma {:induction false} ReportsOfLine(line: string, rest: string, number: nat)
    requires '\n' !in line
    ensures Reports(line + ("\n" + rest), number) == [Report(number, Judge(line))] + Reports(rest, number + 1)
    ensures Reports(line, number) == if FirstExcess(line).Some? then [Report(number, Judge(line))] else []
  {
    HeadIs(line, "\n" + rest);
    assert (line + ("\n" + rest))[|line| + 1..] == rest;
    assert line + "" == line;
    HeadIs(line, "");
  }
}

/** The report of a text, line by line. */
module BracketLines {
  import opened Common
  import opened BracketReport

  function Text(lines: seq<string>): string {
    if lines == [] then "" else lines[0] + ("\n" + Text(lines[1..]))
  }

  /** A text made of whole lines gets one report a line, in order, each about that line alone. */
  lemma {:induction false} OneReportEach(lines: seq<string>, number: nat)
    requires forall l :: l in lines ==> '\n' !in l
    ensures var r := Reports(Text(lines), number);
            |r| == |lines| && forall i :: 0 <= i < |lines| ==> r[i] == Report(number + i, Judge(lines[i]))
  {
    if lines == [] {
      ReportsOfLine("", "", number);
    } else {
      ReportsOfLine(lines[0], Text(lines[1..]), number);
      OneReportEach(lines[1..], number + 1);
    }
  }
}

/** The checker itself (cqg/lib/ParenthesisChecker.cpp). */
module ParenthesisCheckers {
  import opened Common
  import opened BracketReport

  datatype State = WaitForOpen | WaitForAny

  class ParenthesisChecker {
    var state: State
    var openIndex: int
    var position: nat
    ghost var seen: string       // what has been accepted since the last reset or failure
    ghost var passed: nat        // characters up to the last failure since the last reset

    /** This holds after a failure as well: it leaves no trace but in the position. */
    ghost predicate Valid()
      reads this
    {
      && FirstExcess(seen) == None
      && position == passed + |seen| && openIndex == Depth(seen)
      && (state == WaitForOpen <==> openIndex == 0)
    }

    constructor ()
      ensures Valid() && seen == "" && passed == 0
    {
      state, openIndex, position, seen, passed := WaitForOpen, 0, 0, "", 0;
    }

    method Reset()
      modifies this
      ensures Valid() && seen == "" && passed == 0
    {
      state, openIndex, position, seen, passed := WaitForOpen, 0, 0, "", 0;
    }

    method ValidateWaitForOpen(c: char) returns (ok: bool)
      modifies `state, `openIndex
      ensures ok == (c != ')')
      ensures openIndex == old(openIndex) + if c == '(' then 1 else 0
      ensures state == if c == '(' then WaitForAny else old(state)
    {
      if c == '(' {
        openIndex := openIndex + 1;
        state := WaitForAny;
      } else if c == ')' {
        return false;
      }
      return true;
    }

    method ValidateWaitForAny(c: char) returns (ok: bool)
      modifies `state, `openIndex
      ensures ok
      ensures openIndex == old(openIndex) + if c == '(' then 1 else if c == ')' then -1 else 0
      ensures state == if c == ')' && openIndex == 0 then WaitForOpen else old(state)
    {
      if c == '(' {
        openIndex := openIndex + 1;
      } else if c == ')' {
        openIndex := openIndex - 1;
        if openIndex == 0 { state := WaitForOpen; }
      }
      return true;
    }

    /** The next character, by the handler of the current state. */
    method ValidateNext(c: char) returns (ok: bool)
      requires Valid()
      modifies this
      ensures Valid() && (ok <==> FirstExcess(old(seen) + [c]) == None)
      ensures ok ==> seen == old(seen) + [c] && passed == old(passed)
      ensures !ok ==> seen == "" && FirstExcess(old(seen) + [c]) == Some(position - old(passed) - 1)
    {
      DepthOfProper(seen);
      ghost var next := seen + [c];
      assert next[..|seen|] == seen;
      if state == WaitForOpen {
        ok := ValidateWaitForOpen(c);
      } else {
        ok := ValidateWaitForAny(c);
      }
      position := position + 1;
      if ok { seen := next; } else { seen, passed := "", position; }
    }

    /** A block either extends what has been accepted or holds the first excess bracket; the position
        then counts up to that bracket, and the checker goes on as on a new line. */
    method Validate(block: string) returns (ok: bool)
      requires Valid()
      modifies this
      ensures Valid() && (ok <==> FirstExcess(old(seen) + block) == None)
      ensures ok ==> seen == old(seen) + block && passed == old(passed)
      ensures !ok ==> seen == "" && state == WaitForOpen && openIndex == 0
      ensures !ok ==> FirstExcess(old(seen) + block) == Some(position - old(passed) - 1)
    {
      ok := true;
      var i := 0;
      ghost var before := seen;
      assert before + block[..0] == before;
      while ok && i != |block|
        invariant 0 <= i <= |block| && Valid()
        invariant ok ==> seen == before + block[..i] && passed == old(passed)
        invariant !ok ==> seen == "" && FirstExcess(before + block) == Some(position - old(passed) - 1)
        decreases |block| - i, ok
      {
        OneMore(before, block, i);
        ok := ValidateNext(block[i]);
        i := i + 1;
      }
      if ok { assert block[..i] == block; }
    }

    method Done() returns (ok: bool)
      requires Valid()
      ensures ok <==> Depth(seen) == 0
      ensures !ok ==> openIndex > 0
    {
      DepthOfProper(seen);
      ok := openIndex == 0;
    }
  }

  // ---------------------------------------------------------------- calls after a failure

  /** What a checker has accepted, since its last failure, of blocks given to it one by one. */
  function Kept(blocks: seq<string>): string {
    if blocks == [] then ""
    else
      var s := Kept(blocks[..|blocks| - 1]) + blocks[|blocks| - 1];
      if FirstExcess(s) == None then s else ""
  }

  /** What the call with the last of the blocks returns. */
  predicate Passes(blocks: seq<string>) {
    blocks != [] ==> FirstExcess(Kept(blocks[..|blocks| - 1]) + blocks[|blocks| - 1]) == None
  }

  /** One call of `Validate` a block, and then one of `Done`: it accepts whatever ends with a failure. */
  method ValidateAll(blocks: seq<string>) returns (oks: seq<bool>, done: bool)
    ensures |oks| == |blocks| && forall i :: 0 <= i < |blocks| ==> oks[i] == Passes(blocks[..i + 1])
    ensures done <==> Depth(Kept(blocks)) == 0
    ensures !Passes(blocks) ==> done
  {
    var checker := new ParenthesisChecker();
    oks := [];
    for i := 0 to |blocks|
      invariant checker.Valid() && checker.seen == Kept(blocks[..i])
      invariant |oks| == i && forall j :: 0 <= j < i ==> oks[j] == Passes(blocks[..j + 1])
    {
      assert blocks[..i + 1][..i] == blocks[..i];
      var ok := checker.Validate(blocks[i]);
      oks := oks + [ok];
    }
    assert blocks[..|blocks|] == blocks;
    done := checker.Done();
  }

  function Whole(blocks: seq<string>): string {
    if blocks == [] then "" else Whole(blocks[..|blocks| - 1]) + blocks[|blocks| - 1]
  }

  /** Until there is an excess, everything is accepted. */
  lemma {:induction false} KeptIsWhole(blocks: seq<string>)
    requires FirstExcess(Whole(blocks)) == None
    ensures Kept(blocks) == Whole(blocks) && Passes(blocks)
  {
    if blocks != [] {
      var head := blocks[..|blocks| - 1];
      if FirstExcess(Whole(head)).Some? { ExcessStays(Whole(head), blocks[|blocks| - 1]); }
      KeptIsWhole(head);
    }
  }

  /** An excess makes some call fail. */
  lemma {:induction false} SomeCallFails(blocks: seq<string>) returns (i: nat)
    requires FirstExcess(Whole(blocks)).Some?
    ensures 0 < i <= |blocks| && !Passes(blocks[..i])
  {
    var head := blocks[..|blocks| - 1];
    if FirstExcess(Whole(head)) == None {
      KeptIsWhole(head);
      i := |blocks|;
      assert blocks[..i] == blocks;
    } else {
      i := SomeCallFails(head);
      assert head[..i] == blocks[..i];
    }
  }

  lemma {:induction false} ExcessGoesOn(blocks: seq<string>, i: nat)
    requires i <= |blocks| && FirstExcess(Whole(blocks[..i])).Some?
    ensures FirstExcess(Whole(blocks)).Some?
    decreases |blocks|
  {
    if i == |blocks| {
      assert blocks[..i] == blocks;
    } else {
      var head := blocks[..|blocks| - 1];
      assert head[..i] == blocks[..i];
      ExcessGoesOn(head, i);
      ExcessStays(Whole(head), blocks[|blocks| - 1]);
    }
  }

  /** The call that follows a failed one starts afresh. */
  lemma {:induction false} PassesAfterFailure(blocks: seq<string>, j: nat)
    requires 0 < j < |blocks| && !Passes(blocks[..j])
    ensures Passes(blocks[..j + 1]) <==> FirstExcess(blocks[j]) == None
  {
    assert blocks[..j + 1][..j] == blocks[..j];
    assert "" + blocks[j] == blocks[j];
  }

  /** A failure is cumulative: every call after a failed one fails. */
  predicate Cumulative(blocks: seq<string>) {
    forall i, j :: 0 < i < j <= |blocks| && !Passes(blocks[..i]) ==> !Passes(blocks[..j])
  }

  /** Every block that follows an excess has one of its own. */
  predicate EachHasExcess(blocks: seq<string>) {
    forall j {:trigger FirstExcess(blocks[j])} ::
      0 < j < |blocks| && FirstExcess(Whole(blocks[..j])).Some? ==> FirstExcess(blocks[j]).Some?
  }

  /** Failures are cumulative if and only if every block that follows an excess has one of its own. */
  lemma {:induction false} CumulativeExactly(blocks: seq<string>)
    ensures Cumulative(blocks) <==> EachHasExcess(blocks)
  {
    if Cumulative(blocks) {
      forall j | 0 < j < |blocks| && FirstExcess(Whole(blocks[..j])).Some? ensures FirstExcess(blocks[j]).Some? {
        var i := SomeCallFails(blocks[..j]);
        assert blocks[..j][..i] == blocks[..i];
        PassesAfterFailure(blocks, j);
      }
    }
    if EachHasExcess(blocks) {
      forall i, j | 0 < i < j <= |blocks| && !Passes(blocks[..i]) ensures !Passes(blocks[..j]) {
        FailuresGoOn(blocks, i, j);
      }
    }
  }

  lemma {:induction false} FailuresGoOn(blocks: seq<string>, i: nat, j: nat)
    requires EachHasExcess(blocks) && 0 < i < j <= |blocks| && !Passes(blocks[..i])
    ensures !Passes(blocks[..j])
    decreases j
  {
    if i < j - 1 { FailuresGoOn(blocks, i, j - 1); }
    FailureHasExcess(blocks, i, j - 1);
    PassesAfterFailure(blocks, j - 1);
  }

  /** Where a call has failed there is an excess. */
  lemma {:induction false} FailureHasExcess(blocks: seq<string>, i: nat, j: nat)
    requires i <= j <= |blocks| && !Passes(blocks[..i])
    ensures FirstExcess(Whole(blocks[..j])).Some?
  {
    if FirstExcess(Whole(blocks[..i])) == None { KeptIsWhole(blocks[..i]); }
    assert blocks[..j][..i] == blocks[..i];
    ExcessGoesOn(blocks[..j], i);
  }

  /** A line that starts with a closing bracket fails, and goes on as if it had not. */
  lemma FailureIsForgotten()
    ensures !Passes([")"]) && Passes([")", "()"]) && Depth(Kept([")", "()"])) == 0
    ensures FirstExcess(Whole([")", "()"])).Some?
  {
    var s, t, both := ")", "()", [")", "()"];
    assert both[..1] == [")"] && [")"][..0] == [] && "" + s == s && "" + t == t;
    assert s[..0] == "" && t[..1] == "(" && t[..1][..0] == "";
    assert Kept([")"]) == "" && Whole([")"]) == s;
    ExcessStays(s, t);
  }
}
