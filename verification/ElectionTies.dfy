/** Rounds with ties. Up to two slaves always find a master; three or more may find none, because a slave that votes
    again after a tie may vote with less than what it had refused before. */
module ElectionTies {
  import opened Common
  import opened Voting
  import opened Election

  ghost predicate Candidate(s: System, i: nat) {
    i < |s.slaves| && s.slaves[i].state in {Polling, Master}
  }

  ghost predicate HasCandidate(s: System) {
    exists i :: Candidate(s, i)
  }

  /** A round in which something was sent and everything has been delivered. */
  ghost predicate Complete(s: System, n: nat) {
    WellFormed(s) && |s.slaves| == n && s.ballots != [] && AllDelivered(s)
  }

  /** Every complete round of `n` slaves leaves a candidate. */
  ghost predicate AlwaysElects(n: nat) {
    forall run :: IsRun(run) && Complete(run[|run| - 1], n) ==> HasCandidate(run[|run| - 1])
  }

  // ---------------------------------------------------------------- two slaves

  /** Two polling slaves: one is a tie ahead of the other, or each has the other's latest vote still to come or has
      found it smaller. */
  ghost predicate Compared(a: nat, b: nat, x: Channel, y: Channel) {
    || (x == [b, a] && y == [])
    || (x == [] && y == [a, b])
    || (x == [a] && y == [b])
    || (x == [] && y == [b] && a < b)
    || (x == [a] && y == [] && b < a)
  }

  /** Two slaves with the votes `x` under way from `a` to `b`, and `y` from `b` to `a`. */
  ghost predicate InStep(a: Voter, b: Voter, x: Channel, y: Channel) {
    match (a.state, b.state)
    case (Idle, Idle) => x == [] && y == []
    case (Polling, Idle) => x == [a.voteSent] && y == []
    case (Idle, Polling) => x == [] && y == [b.voteSent]
    case (Polling, Polling) => Compared(a.voteSent, b.voteSent, x, y)
    case (Polling, WaitingMaster) => forall v :: v in y ==> v < a.voteSent
    case (WaitingMaster, Polling) => forall v :: v in x ==> v < b.voteSent
    case (Master, WaitingMaster) => true
    case (WaitingMaster, Master) => true
    case _ => false
  }

  ghost predicate Duel(s: System, i: nat, j: nat) {
    && Safe(s) && |s.slaves| == 2 && {i, j} == {0, 1}
    && InStep(s.slaves[i], s.slaves[j], s.net[i][j], s.net[j][i])
    && (s.slaves[i].state == Idle == s.slaves[j].state ==> s.ballots == [])
  }

  /** The votes under way after a reaction. */
  function Sent(channel: Channel, r: Reaction): Channel {
    channel + if r.broadcast.Some? then [r.broadcast.value] else []
  }

  lemma VoteKeepsStep(a: Voter, b: Voter, x: Channel, y: Channel, draw: nat)
    requires InStep(a, b, x, y) && x != [] && a.state != Master && b.state != Master
    ensures var r := OnVote(b, x[0], draw); InStep(a, r.voter, x[1..], Sent(y, r))
  {
    assert |x| == 1 ==> x[1..] == [];
    assert |x| == 2 ==> x[1..] == [x[1]];
    assert y == [] ==> y + [draw] == [draw];
    assert |y| == 1 ==> y + [draw] == [y[0], draw];
    assert x[0] in x && forall v :: v in x[1..] ==> v in x;
  }

  lemma MasterGoneKeepsStep(a: Voter, b: Voter, x: Channel, y: Channel, draw: nat)
    requires InStep(a, b, x, y) && b.state == Idle
    ensures var r := OnMasterGone(draw); InStep(a, r.voter, x, Sent(y, r))
  {
    assert y == [] ==> y + [draw] == [draw];
  }

  lemma StepIsSymmetric(a: Voter, b: Voter, x: Channel, y: Channel)
    ensures InStep(a, b, x, y) == InStep(b, a, y, x)
  {
  }

  lemma DuelIsSymmetric(s: System)
    requires Duel(s, 0, 1) || Duel(s, 1, 0)
    ensures Duel(s, 0, 1) && Duel(s, 1, 0)
  {
    StepIsSymmetric(s.slaves[0], s.slaves[1], s.net[0][1], s.net[1][0]);
  }

  lemma DuelOfMasterGone(s: System, i: nat, j: nat, draw: nat)
    requires Duel(s, i, j) && Enabled(s, MasterGone(j, draw)) && Safe(Apply(s, MasterGone(j, draw)))
    ensures Duel(Apply(s, MasterGone(j, draw)), i, j)
  {
    MasterGoneKeepsStep(s.slaves[i], s.slaves[j], s.net[i][j], s.net[j][i], draw);
    assert Apply(s, MasterGone(j, draw)).net[i][j] == s.net[i][j];
  }

  lemma DuelOfDelivery(s: System, i: nat, j: nat, draw: nat)
    requires Duel(s, i, j) && Enabled(s, Deliver(i, j, draw)) && Safe(Apply(s, Deliver(i, j, draw)))
    ensures Duel(Apply(s, Deliver(i, j, draw)), i, j)
  {
    VoteKeepsStep(s.slaves[i], s.slaves[j], s.net[i][j], s.net[j][i], draw);
    assert Apply(s, Deliver(i, j, draw)).net[i][j] == s.net[i][j][1..];
  }

  lemma DuelOfAction(s: System, a: Action)
    requires Duel(s, 0, 1) && Enabled(s, a) && Safe(Apply(s, a))
    ensures Duel(Apply(s, a), 0, 1)
  {
    DuelIsSymmetric(s);
    match a
    case MasterGone(j, draw) =>
      DuelOfMasterGone(s, 1 - j, j, draw);
      DuelIsSymmetric(Apply(s, a));
    case Deliver(i, j, draw) =>
      DuelOfDelivery(s, i, j, draw);
      DuelIsSymmetric(Apply(s, a));
    case PollTimeout(i) =>
  }

  lemma DuelOfStep(s: System, t: System)
    requires Duel(s, 0, 1) && Next(s, t)
    ensures Duel(t, 0, 1)
  {
    StepKeepsSafe(s, t);
    var a :| Enabled(s, a) && t == Apply(s, a);
    DuelOfAction(s, a);
  }

  lemma {:induction false} DuelOfRun(run: seq<System>)
    requires IsRun(run) && |run[|run| - 1].slaves| == 2
    ensures Duel(run[|run| - 1], 0, 1)
  {
    RunIsSafe(run);
    if |run| > 1 {
      DuelOfRun(run[..|run| - 1]);
      DuelOfStep(run[|run| - 2], run[|run| - 1]);
    }
  }

  lemma {:induction false} OneAlone(run: seq<System>)
    requires IsRun(run) && |run[|run| - 1].slaves| == 1
    ensures var s := run[|run| - 1];
            s.slaves[0].state != WaitingMaster && (s.slaves[0].state == Idle ==> s.ballots == [])
  {
    if |run| > 1 {
      RunIsSafe(run[..|run| - 1]);
      OneAlone(run[..|run| - 1]);
    }
  }

  lemma {:induction false} NobodyVotes(run: seq<System>)
    requires IsRun(run) && run[|run| - 1].slaves == []
    ensures run[|run| - 1].ballots == []
  {
    if |run| > 1 { NobodyVotes(run[..|run| - 1]); }
  }

  lemma FewAlwaysElect(run: seq<System>)
    requires IsRun(run) && |run[|run| - 1].slaves| <= 2 && Complete(run[|run| - 1], |run[|run| - 1].slaves|)
    ensures HasCandidate(run[|run| - 1])
  {
    var s := run[|run| - 1];
    if |s.slaves| == 2 {
      DuelOfRun(run);
      assert Candidate(s, 0) || Candidate(s, 1);
    } else if |s.slaves| == 1 {
      OneAlone(run);
      assert Candidate(s, 0);
    } else {
      NobodyVotes(run);
    }
  }

  // ---------------------------------------------------------------- three slaves or more

  lemma Extend(run: seq<System>, a: Action) returns (longer: seq<System>)
    requires IsRun(run) && WellFormed(run[|run| - 1]) && Enabled(run[|run| - 1], a)
    ensures IsRun(longer) && longer[|longer| - 1] == Apply(run[|run| - 1], a)
  {
    longer := run + [Apply(run[|run| - 1], a)];
  }

  /** `n` slaves, of which three take part, and what is under way from 0 to 1, 0 to 2, 1 to 0, 1 to 2, 2 to 0 and 2 to
      1. */
  ghost predicate Three(s: System, n: nat, p: Voter, q: Voter, r: Voter, a: Channel, b: Channel, c: Channel,
                        d: Channel, e: Channel, f: Channel) {
    && WellFormed(s) && |s.slaves| == n >= 3 && s.ballots != []
    && s.slaves[0] == p && s.slaves[1] == q && s.slaves[2] == r
    && (forall k :: 3 <= k < n ==> s.slaves[k].state == Idle)
    && s.net[0][1] == a && s.net[0][2] == b && s.net[1][0] == c && s.net[1][2] == d && s.net[2][0] == e
        && s.net[2][1] == f
  }

  function Quiet(n: nat): (s: System)
    ensures Initial(s) && |s.slaves| == n
  {
    System(seq(n, i => Voter(Idle, 0, 0)), seq(n, i => seq(n, j => [])), [])
  }

  function Polls(vote: nat): Voter { Voter(Polling, vote, 0) }

  lemma TwoTie(n: nat) returns (run: seq<System>)
    requires n >= 3
    ensures IsRun(run) && Three(run[|run| - 1], n, Polls(5), Polls(3), Polls(9), [5], [5], [9, 3], [9, 3], [9], [])
  {
    run := [Quiet(n)];
    run := Extend(run, MasterGone(0, 5));
    assert Three(run[|run| - 1], n, Polls(5), Voter(Idle, 0, 0), Voter(Idle, 0, 0), [5], [5], [], [], [], []);
    run := Extend(run, MasterGone(1, 9));
    assert Three(run[|run| - 1], n, Polls(5), Polls(9), Voter(Idle, 0, 0), [5], [5], [9], [9], [], []);
    run := Extend(run, MasterGone(2, 9));
    assert Three(run[|run| - 1], n, Polls(5), Polls(9), Polls(9), [5], [5], [9], [9], [9], [9]);
    run := Extend(run, Deliver(2, 1, 3));
  }

  lemma AllLeaveThePoll(n: nat) returns (run: seq<System>)
    requires n >= 3
    ensures IsRun(run) && Three(run[|run| - 1], n, Voter(WaitingMaster, 5, 9), Voter(WaitingMaster, 3, 5),
                                Voter(WaitingMaster, 1, 5), [], [], [3], [3], [9, 1], [1])
  {
    run := TwoTie(n);
    run := Extend(run, Deliver(0, 1, 1));
    assert Three(run[|run| - 1], n, Polls(5), Voter(WaitingMaster, 3, 5), Polls(9), [], [5], [9, 3], [9, 3], [9], []);
    run := Extend(run, Deliver(1, 0, 1));
    assert Three(run[|run| - 1], n, Voter(WaitingMaster, 5, 9), Voter(WaitingMaster, 3, 5), Polls(9), [], [5], [3],
                 [9, 3], [9], []);
    run := Extend(run, Deliver(1, 2, 1));
    assert Three(run[|run| - 1], n, Voter(WaitingMaster, 5, 9), Voter(WaitingMaster, 3, 5), Polls(1), [], [5], [3],
                 [3], [9, 1], [1]);
    run := Extend(run, Deliver(0, 2, 1));
  }

  /** A system of `n` slaves that has sent something and in which nobody polls or is master. */
  ghost predicate Leaderless(s: System, n: nat) {
    WellFormed(s) && |s.slaves| == n && s.ballots != [] && !HasCandidate(s)
  }

  ghost predicate Positive(channel: Channel) {
    forall k :: 0 <= k < |channel| ==> channel[k] > 0
  }

  lemma ActionKeepsPositive(s: System, a: Action, i: nat, j: nat)
    requires WellFormed(s) && Enabled(s, a) && i < |s.slaves| && j < |s.slaves| && Positive(s.net[i][j])
    ensures Positive(Apply(s, a).net[i][j])
  {
  }

  lemma {:induction false} VotesArePositive(run: seq<System>, i: nat, j: nat)
    requires IsRun(run) && WellFormed(run[|run| - 1]) && i < |run[|run| - 1].slaves| && j < |run[|run| - 1].slaves|
    ensures Positive(run[|run| - 1].net[i][j])
  {
    if |run| > 1 {
      var s := run[|run| - 2];
      var a :| Enabled(s, a) && run[|run| - 1] == Apply(s, a);
      VotesArePositive(run[..|run| - 1], i, j);
      ActionKeepsPositive(s, a, i, j);
    }
  }

  /** An idle slave that draws the least vote leaves the poll at once. */
  lemma NobodyEnters(s: System, n: nat, i: nat, j: nat)
    requires Leaderless(s, n) && i < n && j < n && s.net[i][j] != [] && s.net[i][j][0] > 0
    ensures var t := Apply(s, Deliver(i, j, 1));
            && Leaderless(t, n)
            && forall a, b :: 0 <= a < n && 0 <= b < n ==> t.net[a][b] == if a == i && b == j then s.net[i][j][1..]
                else s.net[a][b]
  {
    var t := Apply(s, Deliver(i, j, 1));
    assert !Candidate(s, j);
    forall k ensures !Candidate(t, k) {
      assert !Candidate(s, k);
    }
  }

  /** Votes that meet nobody in the poll can all be delivered without anybody entering it. */
  lemma {:induction false} DrainChannel(run: seq<System>, n: nat, i: nat, j: nat) returns (longer: seq<System>)
    requires IsRun(run) && Leaderless(run[|run| - 1], n) && i < n && j < n
    ensures IsRun(longer) && Leaderless(longer[|longer| - 1], n)
    ensures var s, t := run[|run| - 1], longer[|longer| - 1];
            forall a, b :: 0 <= a < n && 0 <= b < n ==> t.net[a][b] == if a == i && b == j then [] else s.net[a][b]
    decreases |run[|run| - 1].net[i][j]|
  {
    longer := run;
    var s := run[|run| - 1];
    if s.net[i][j] != [] {
      VotesArePositive(run, i, j);
      longer := Extend(run, Deliver(i, j, 1));
      NobodyEnters(s, n, i, j);
      longer := DrainChannel(longer, n, i, j);
    }
  }

  lemma {:induction false} DrainRow(run: seq<System>, n: nat, i: nat, j: nat) returns (longer: seq<System>)
    requires IsRun(run) && Leaderless(run[|run| - 1], n) && i < n && j <= n
    ensures IsRun(longer) && Leaderless(longer[|longer| - 1], n)
    ensures var s, t := run[|run| - 1], longer[|longer| - 1];
            forall a, b :: 0 <= a < n && 0 <= b < n ==> t.net[a][b] == if a == i && b < j then [] else s.net[a][b]
  {
    longer := run;
    if j > 0 {
      longer := DrainRow(run, n, i, j - 1);
      longer := DrainChannel(longer, n, i, j - 1);
    }
  }

  lemma {:induction false} DrainAll(run: seq<System>, n: nat, i: nat) returns (longer: seq<System>)
    requires IsRun(run) && Leaderless(run[|run| - 1], n) && i <= n
    ensures IsRun(longer) && Leaderless(longer[|longer| - 1], n)
    ensures var t := longer[|longer| - 1]; forall a, b :: 0 <= a < i && 0 <= b < n ==> t.net[a][b] == []
  {
    longer := run;
    if i > 0 {
      longer := DrainAll(run, n, i - 1);
      longer := DrainRow(longer, n, i - 1, n);
    }
  }

  /** Three slaves or more can send votes, receive all of them and end up without a candidate. */
  lemma ManyMayElectNobody(n: nat) returns (run: seq<System>)
    requires n >= 3
    ensures IsRun(run) && Complete(run[|run| - 1], n) && !HasCandidate(run[|run| - 1])
  {
    run := AllLeaveThePoll(n);
    run := DrainAll(run, n, n);
  }

  /** Rounds always elect somebody if and only if there are at most two slaves. */
  lemma AlwaysElectsExactly(n: nat)
    ensures AlwaysElects(n) <==> n <= 2
  {
    if n <= 2 {
      forall run | IsRun(run) && Complete(run[|run| - 1], n) ensures HasCandidate(run[|run| - 1]) {
        FewAlwaysElect(run);
      }
    } else {
      var run := ManyMayElectNobody(n);
    }
  }
}
