/** A round of master election among any number of slaves, over reliable channels that keep
    the order of each sender's votes. A round starts with every slave idle and no vote in
    flight; a poll timeout is possible only once every vote has been delivered. */
module Election {
  import opened Common
  import opened Voting

  type Channel = seq<nat>

  datatype Ballot = Ballot(voter: nat, vote: nat)

  /** `net[i][j]` holds the votes of `i` that `j` has not received yet, oldest first;
      `ballots` records every broadcast of the round. */
  datatype System = System(slaves: seq<Voter>, net: seq<seq<Channel>>, ballots: seq<Ballot>)

  datatype Action =
    | MasterGone(who: nat, draw: nat)
    | Deliver(from: nat, to: nat, draw: nat)
    | PollTimeout(who: nat)

  predicate WellFormed(s: System) {
    && |s.net| == |s.slaves|
    && forall i :: 0 <= i < |s.net| ==> |s.net[i]| == |s.slaves|
  }

  predicate Initial(s: System) {
    && WellFormed(s)
    && s.ballots == []
    && (forall i :: 0 <= i < |s.slaves| ==> s.slaves[i] == Voter(Idle, 0, 0))
    && (forall i, j :: 0 <= i < |s.slaves| && 0 <= j < |s.slaves| ==> s.net[i][j] == [])
  }

  predicate AllDelivered(s: System)
    requires WellFormed(s)
  {
    forall i, j :: 0 <= i < |s.slaves| && 0 <= j < |s.slaves| ==> s.net[i][j] == []
  }

  predicate Enabled(s: System, a: Action)
    requires WellFormed(s)
  {
    match a
    case MasterGone(i, draw) => i < |s.slaves| && s.slaves[i].state == Idle && IsDraw(draw)
    case Deliver(i, j, draw) => i < |s.slaves| && j < |s.slaves| && s.net[i][j] != [] && IsDraw(draw)
    case PollTimeout(i) => i < |s.slaves| && s.slaves[i].state == Polling && AllDelivered(s)
  }

  /** A broadcast reaches every slave but its sender, which discards its own packets. */
  function Broadcast(row: seq<Channel>, sender: nat, vote: nat): (r: seq<Channel>)
    ensures |r| == |row|
    ensures forall j :: 0 <= j < |row| ==> r[j] == if j == sender then row[j] else row[j] + [vote]
  {
    seq(|row|, j requires 0 <= j < |row| => if j == sender then row[j] else row[j] + [vote])
  }

  function Become(s: System, i: nat, r: Reaction): (t: System)
    requires WellFormed(s) && i < |s.slaves|
    ensures WellFormed(t) && |t.slaves| == |s.slaves|
    ensures forall a, b :: 0 <= a < |s.slaves| && 0 <= b < |s.slaves| ==>
              t.net[a][b] == s.net[a][b] + if r.broadcast.Some? && a == i != b then [r.broadcast.value] else []
  {
    match r.broadcast
    case None => s.(slaves := s.slaves[i := r.voter])
    case Some(v) => System(s.slaves[i := r.voter], s.net[i := Broadcast(s.net[i], i, v)], s.ballots + [Ballot(i, v)])
  }

  function Receive(s: System, i: nat, j: nat): (t: System)
    requires WellFormed(s) && i < |s.slaves| && j < |s.slaves| && s.net[i][j] != []
    ensures WellFormed(t)
  {
    s.(net := s.net[i := s.net[i][j := s.net[i][j][1..]]])
  }

  function Apply(s: System, a: Action): (t: System)
    requires WellFormed(s) && Enabled(s, a)
    ensures WellFormed(t) && |t.slaves| == |s.slaves|
  {
    match a
    case MasterGone(i, draw) => Become(s, i, OnMasterGone(draw))
    case Deliver(i, j, draw) => Become(Receive(s, i, j), j, OnVote(s.slaves[j], s.net[i][j][0], draw))
    case PollTimeout(i) => s.(slaves := s.slaves[i := OnPollTimeout(s.slaves[i])])
  }

  ghost predicate Next(s: System, t: System) {
    WellFormed(s) && exists a :: Enabled(s, a) && t == Apply(s, a)
  }

  /** A run: the states of a round, from an initial one, one action at a time. */
  ghost predicate IsRun(run: seq<System>) {
    && |run| > 0
    && Initial(run[0])
    && forall k :: 0 < k < |run| ==> Next(run[k - 1], run[k])
  }

  // ---------------------------------------------------------------- at most one master

  /** Receiving `incoming` in order makes a slave that polls with `vote` leave the poll or vote again
      before the sender's latest vote (the last one) can be accepted as the smaller. */
  ghost predicate Unsettled(vote: nat, incoming: Channel) {
    exists k :: 0 <= k < |incoming| && incoming[k] >= vote && (k < |incoming| - 1 || incoming[k] > vote)
  }

  ghost predicate InPoll(s: System, i: nat)
    requires i < |s.slaves|
  {
    s.slaves[i].state == Polling
  }

  /** What holds of `i` as seen by the channel from `i` to `j`. */
  ghost predicate Link(s: System, i: nat, j: nat)
    requires WellFormed(s) && i < |s.slaves| && j < |s.slaves|
  {
    var out := s.net[i][j];
    && (s.slaves[i].state == Idle ==> out == [])
    && (InPoll(s, i) && out != [] ==> out[|out| - 1] == s.slaves[i].voteSent)
    && (InPoll(s, i) && s.slaves[j].state == Idle ==> out != [])
    && (InPoll(s, i) && InPoll(s, j) && out == [] ==> Unsettled(s.slaves[i].voteSent, s.net[j][i]))
    && (s.slaves[i].state == Master ==> s.slaves[j].state == WaitingMaster)
  }

  ghost predicate Safe(s: System) {
    && WellFormed(s)
    && (forall i :: 0 <= i < |s.slaves| ==> s.net[i][i] == [])
    && (forall i, j :: 0 <= i < |s.slaves| && 0 <= j < |s.slaves| && i != j ==> Link(s, i, j))
    && ((exists i :: 0 <= i < |s.slaves| && s.slaves[i].state == Master) ==> AllDelivered(s))
  }

  /** One more vote in flight cannot settle what is not settled. */
  lemma UnsettledGrows(vote: nat, incoming: Channel, v: nat)
    requires Unsettled(vote, incoming)
    ensures Unsettled(vote, incoming + [v])
  {
    var k :| 0 <= k < |incoming| && incoming[k] >= vote && (k < |incoming| - 1 || incoming[k] > vote);
    assert (incoming + [v])[k] == incoming[k];
  }

  /** Accepting a smaller vote leaves the rest to settle. */
  lemma UnsettledShrinks(vote: nat, incoming: Channel)
    requires Unsettled(vote, incoming) && incoming[0] < vote
    ensures Unsettled(vote, incoming[1..])
  {
    var k :| 0 <= k < |incoming| && incoming[k] >= vote && (k < |incoming| - 1 || incoming[k] > vote);
    assert incoming[1..][k - 1] == incoming[k];
  }

  /** While some slave is not waiting for it, there is no master elsewhere. */
  lemma NoMasterBesides(s: System, i: nat)
    requires Safe(s) && i < |s.slaves| && s.slaves[i].state != WaitingMaster
    ensures forall m :: 0 <= m < |s.slaves| && m != i ==> s.slaves[m].state != Master
  {
    forall m | 0 <= m < |s.slaves| && m != i ensures s.slaves[m].state != Master {
      assert Link(s, m, i);
    }
  }

  lemma MasterGoneKeepsSafe(s: System, i: nat, draw: nat)
    requires Safe(s) && Enabled(s, MasterGone(i, draw))
    ensures Safe(Apply(s, MasterGone(i, draw)))
  {
    var t := Apply(s, MasterGone(i, draw));
    NoMasterBesides(s, i);
    forall a, b | 0 <= a < |t.slaves| && 0 <= b < |t.slaves| && a != b
      ensures Link(t, a, b)
    {
      assert Link(s, a, b) && Link(s, b, a);
    }
  }

  lemma PollTimeoutKeepsSafe(s: System, i: nat)
    requires Safe(s) && Enabled(s, PollTimeout(i))
    ensures Safe(Apply(s, PollTimeout(i)))
  {
    var t := Apply(s, PollTimeout(i));
    forall a, b | 0 <= a < |t.slaves| && 0 <= b < |t.slaves| && a != b
      ensures Link(t, a, b)
    {
      assert Link(s, a, b) && Link(s, b, a);
      if a != i { assert Link(s, i, a) && Link(s, a, i); }
    }
  }

  /** The pair that a delivery touches: `i` sent the vote, `j` receives it. */
  lemma DeliverKeepsPair(s: System, i: nat, j: nat, draw: nat)
    requires Safe(s) && Enabled(s, Deliver(i, j, draw)) && i != j
    ensures var t := Apply(s, Deliver(i, j, draw)); Link(t, i, j) && Link(t, j, i)
  {
    assert Link(s, i, j) && Link(s, j, i);
    var v, inward, outward := s.net[i][j][0], s.net[i][j], s.net[j][i];
    var a, b := s.slaves[i].voteSent, s.slaves[j].voteSent;
    var t := Apply(s, Deliver(i, j, draw));
    assert t.net[i][j] == inward[1..];
    if InPoll(s, i) && InPoll(s, j) {
      if v < b {
        if |inward| == 1 {
          assert outward != [];
          assert outward[|outward| - 1] > a;
        } else if outward == [] {
          UnsettledShrinks(b, inward);
        }
      } else if v == b {
        assert t.net[j][i] == outward + [draw];
        if |inward| == 1 {
          assert outward != [];
          assert t.net[j][i][|outward| - 1] >= a;
        }
      }
    } else if InPoll(s, i) && s.slaves[j].state == Idle {
      assert outward == [];
      if draw > v { assert t.net[j][i][0] == draw; }
    }
  }

  lemma DeliverKeepsOtherPairs(s: System, i: nat, j: nat, draw: nat, a: nat, b: nat)
    requires Safe(s) && Enabled(s, Deliver(i, j, draw))
    requires a < |s.slaves| && b < |s.slaves| && a != b && !(a == i && b == j) && !(a == j && b == i)
    ensures Link(Apply(s, Deliver(i, j, draw)), a, b)
  {
    var t := Apply(s, Deliver(i, j, draw));
    assert Link(s, a, b);
    assert t.net[a][b] == s.net[a][b] + if |t.ballots| > |s.ballots| && a == j then [draw] else [];
    if b == j && InPoll(s, a) && InPoll(s, j) && s.net[a][j] == [] && |t.ballots| > |s.ballots| {
      UnsettledGrows(s.slaves[a].voteSent, s.net[j][a], draw);
    }
  }

  lemma DeliverKeepsSafe(s: System, i: nat, j: nat, draw: nat)
    requires Safe(s) && Enabled(s, Deliver(i, j, draw))
    ensures Safe(Apply(s, Deliver(i, j, draw)))
  {
    var t := Apply(s, Deliver(i, j, draw));
    forall a, b | 0 <= a < |t.slaves| && 0 <= b < |t.slaves| && a != b
      ensures Link(t, a, b)
    {
      if (a == i && b == j) || (a == j && b == i) {
        DeliverKeepsPair(s, i, j, draw);
      } else {
        DeliverKeepsOtherPairs(s, i, j, draw, a, b);
      }
    }
  }

  lemma StepKeepsSafe(s: System, t: System)
    requires Safe(s) && Next(s, t)
    ensures Safe(t)
  {
    var a :| Enabled(s, a) && t == Apply(s, a);
    match a
    case MasterGone(i, draw) => MasterGoneKeepsSafe(s, i, draw);
    case Deliver(i, j, draw) => DeliverKeepsSafe(s, i, j, draw);
    case PollTimeout(i) => PollTimeoutKeepsSafe(s, i);
  }

  lemma {:induction false} RunIsSafe(run: seq<System>)
    requires IsRun(run)
    ensures Safe(run[|run| - 1])
  {
    if |run| > 1 {
      RunIsSafe(run[..|run| - 1]);
      StepKeepsSafe(run[|run| - 2], run[|run| - 1]);
    }
  }

  /** Election safety: for any number of slaves, any draws, ties, redraws and any order of deliveries,
      a round never has two masters. */
  lemma AtMostOneMaster(run: seq<System>, i: nat, j: nat)
    requires IsRun(run)
    requires var s := run[|run| - 1]; i < |s.slaves| && j < |s.slaves|
    requires var s := run[|run| - 1]; s.slaves[i].state == Master && s.slaves[j].state == Master
    ensures i == j
  {
    RunIsSafe(run);
    assert i != j ==> Link(run[|run| - 1], i, j);
  }

  /** Once every vote has been delivered at most one slave still polls, and if one does (or one is
      master already) every other slave waits for the master. */
  lemma AtMostOneCandidate(run: seq<System>, i: nat, j: nat)
    requires IsRun(run)
    requires var s := run[|run| - 1]; i < |s.slaves| && j < |s.slaves| && i != j && WellFormed(s) && AllDelivered(s)
    requires run[|run| - 1].slaves[i].state in {Polling, Master}
    ensures run[|run| - 1].slaves[j].state == WaitingMaster
  {
    RunIsSafe(run);
    assert Link(run[|run| - 1], i, j) && Link(run[|run| - 1], j, i);
  }

  // ---------------------------------------------------------------- who is elected

  ghost predicate Distinct(ballots: seq<Ballot>) {
    forall p, q :: 0 <= p < q < |ballots| ==> ballots[p].vote != ballots[q].vote
  }

  ghost predicate Exceeded(ballots: seq<Ballot>, vote: nat) {
    exists b :: b in ballots && b.vote > vote
  }

  /** Where a broadcast vote has brought its sender. */
  ghost predicate Standing(s: System, b: Ballot) {
    && b.voter < |s.slaves|
    && match s.slaves[b.voter].state
       case Idle => false
       case Polling => s.slaves[b.voter].voteSent == b.vote
       case WaitingMaster => Exceeded(s.ballots, b.vote)
       case Master => !Exceeded(s.ballots, b.vote)
  }

  /** A vote of another slave is still under way to `i`, or `i` has met it with a larger one. */
  ghost predicate Met(s: System, b: Ballot, i: nat)
    requires WellFormed(s) && i < |s.slaves|
  {
    && b.voter < |s.slaves|
    && (s.slaves[i].state == Idle ==> b.vote in s.net[b.voter][i])
    && (InPoll(s, i) ==> b.vote in s.net[b.voter][i] || b.vote < s.slaves[i].voteSent)
  }

  ghost predicate AllStand(s: System) {
    forall b :: b in s.ballots ==> Standing(s, b)
  }

  ghost predicate AllMet(s: System)
    requires WellFormed(s)
  {
    forall b, i :: b in s.ballots && 0 <= i < |s.slaves| && i != b.voter ==> Met(s, b, i)
  }

  /** Every vote that is under way or stands was broadcast. */
  ghost predicate Recorded(s: System)
    requires WellFormed(s)
  {
    && (forall i :: 0 <= i < |s.slaves| && InPoll(s, i) ==> Ballot(i, s.slaves[i].voteSent) in s.ballots)
    && (forall i, j, v :: 0 <= i < |s.slaves| && 0 <= j < |s.slaves| && v in s.net[i][j] ==> Ballot(i, v) in s.ballots)
  }

  ghost predicate Counted(s: System)
    requires WellFormed(s)
  {
    AllStand(s) && AllMet(s) && Recorded(s)
  }

  lemma SameVoteSameVoter(ballots: seq<Ballot>, b: Ballot, c: Ballot)
    requires Distinct(ballots) && b in ballots && c in ballots && b.vote == c.vote
    ensures b == c
  {
  }

  lemma MasterGoneCounts(s: System, i: nat, draw: nat)
    requires Safe(s) && Counted(s) && Enabled(s, MasterGone(i, draw))
    ensures Counted(Apply(s, MasterGone(i, draw)))
  {
    var t := Apply(s, MasterGone(i, draw));
    NoMasterBesides(s, i);
    forall b | b in t.ballots ensures Standing(t, b) {
      if b in s.ballots { assert Standing(s, b); }
    }
    forall b, k | b in t.ballots && 0 <= k < |t.slaves| && k != b.voter ensures Met(t, b, k) {
      if b in s.ballots { assert Met(s, b, k); } else { assert draw in t.net[i][k]; }
    }
  }

  lemma DeliverKeepsStanding(s: System, i: nat, j: nat, draw: nat)
    requires Safe(s) && Counted(s) && Enabled(s, Deliver(i, j, draw)) && Distinct(s.ballots)
    ensures !(InPoll(s, j) && s.net[i][j][0] == s.slaves[j].voteSent)
    ensures AllStand(Apply(s, Deliver(i, j, draw)))
  {
    var t, v := Apply(s, Deliver(i, j, draw)), s.net[i][j][0];
    assert v in s.net[i][j] && i != j;
    if InPoll(s, j) && v == s.slaves[j].voteSent { SameVoteSameVoter(s.ballots, Ballot(i, v), Ballot(j, v)); }
    forall b | b in t.ballots ensures Standing(t, b) {
      if b in s.ballots { assert Standing(s, b); }
    }
  }

  lemma DeliverKeepsMet(s: System, i: nat, j: nat, draw: nat)
    requires Safe(s) && Counted(s) && Enabled(s, Deliver(i, j, draw))
    requires !(InPoll(s, j) && s.net[i][j][0] == s.slaves[j].voteSent)
    ensures AllMet(Apply(s, Deliver(i, j, draw)))
  {
    var t := Apply(s, Deliver(i, j, draw));
    forall b, k | b in t.ballots && 0 <= k < |t.slaves| && k != b.voter ensures Met(t, b, k) {
      if b in s.ballots { assert Met(s, b, k); } else { assert draw in t.net[j][k]; }
    }
  }

  lemma DeliverKeepsRecorded(s: System, i: nat, j: nat, draw: nat)
    requires Safe(s) && Recorded(s) && Enabled(s, Deliver(i, j, draw))
    ensures Recorded(Apply(s, Deliver(i, j, draw)))
  {
    var t := Apply(s, Deliver(i, j, draw));
    forall a, b, w | 0 <= a < |t.slaves| && 0 <= b < |t.slaves| && w in t.net[a][b] ensures Ballot(a, w) in t.ballots {
      assert w in s.net[a][b] || Ballot(a, w) == Ballot(j, draw);
    }
  }

  lemma PollTimeoutCounts(s: System, i: nat)
    requires Safe(s) && Counted(s) && Enabled(s, PollTimeout(i))
    ensures Counted(Apply(s, PollTimeout(i)))
  {
    var t := Apply(s, PollTimeout(i));
    forall b | b in t.ballots ensures Standing(t, b) {
      assert Standing(s, b);
      forall c | c in t.ballots && b.voter == i ensures c.vote <= b.vote {
        assert Standing(s, c) && (c.voter != i ==> Met(s, c, i));
      }
    }
    forall b, k | b in t.ballots && 0 <= k < |t.slaves| && k != b.voter ensures Met(t, b, k) {
      assert Met(s, b, k);
    }
  }

  lemma ActionCounts(s: System, a: Action)
    requires Safe(s) && Counted(s) && Enabled(s, a) && Distinct(s.ballots)
    ensures Counted(Apply(s, a))
  {
    match a
    case MasterGone(i, draw) => MasterGoneCounts(s, i, draw);
    case Deliver(i, j, draw) =>
      DeliverKeepsStanding(s, i, j, draw);
      DeliverKeepsMet(s, i, j, draw);
      DeliverKeepsRecorded(s, i, j, draw);
    case PollTimeout(i) => PollTimeoutCounts(s, i);
  }

  lemma DistinctBefore(s: System, a: Action)
    requires WellFormed(s) && Enabled(s, a) && Distinct(Apply(s, a).ballots)
    ensures Distinct(s.ballots)
  {
    var t := Apply(s, a);
    assert forall p :: 0 <= p < |s.ballots| ==> t.ballots[p] == s.ballots[p];
  }

  lemma StepCounts(s: System, t: System)
    requires Safe(s) && Next(s, t) && WellFormed(t) && Distinct(t.ballots)
    ensures Distinct(s.ballots) && (Counted(s) ==> Counted(t))
  {
    var a :| Enabled(s, a) && t == Apply(s, a);
    DistinctBefore(s, a);
    if Counted(s) { ActionCounts(s, a); }
  }

  lemma {:induction false} RunIsCounted(run: seq<System>)
    requires IsRun(run) && Distinct(run[|run| - 1].ballots)
    ensures WellFormed(run[|run| - 1]) && Counted(run[|run| - 1])
  {
    RunIsSafe(run);
    if |run| > 1 {
      var head := run[..|run| - 1];
      RunIsSafe(head);
      StepCounts(run[|run| - 2], run[|run| - 1]);
      RunIsCounted(head);
    }
  }

  lemma {:induction false} SomeBallotIsLargest(ballots: seq<Ballot>) returns (b: Ballot)
    requires ballots != []
    ensures b in ballots && !Exceeded(ballots, b.vote)
  {
    b := ballots[|ballots| - 1];
    if |ballots| > 1 {
      var c := SomeBallotIsLargest(ballots[..|ballots| - 1]);
      if c.vote > b.vote { b := c; }
    }
  }

  ghost predicate Elected(s: System, i: nat) {
    && i < |s.slaves|
    && s.slaves[i].state in {Polling, Master}
    && (exists b :: b in s.ballots && b.voter == i && !Exceeded(s.ballots, b.vote))
    && (InPoll(s, i) ==> !Exceeded(s.ballots, s.slaves[i].voteSent))
    && forall j :: 0 <= j < |s.slaves| && j != i ==> s.slaves[j].state == WaitingMaster
  }

  /** Election outcome: if the votes broadcast in a round are pairwise different and there is one at all,
      then, once all are delivered, the sender of the largest vote polls (or has become the master) and
      every other slave waits for the master. */
  lemma LargestVoteWins(run: seq<System>) returns (winner: nat)
    requires IsRun(run) && Distinct(run[|run| - 1].ballots) && run[|run| - 1].ballots != []
    requires WellFormed(run[|run| - 1]) && AllDelivered(run[|run| - 1])
    ensures Elected(run[|run| - 1], winner)
    ensures var s := run[|run| - 1]; forall other :: Elected(s, other) ==> other == winner
  {
    var s := run[|run| - 1];
    RunIsCounted(run);
    var b := SomeBallotIsLargest(s.ballots);
    winner := b.voter;
    assert Standing(s, b);
    forall j | 0 <= j < |s.slaves| && j != winner ensures s.slaves[j].state == WaitingMaster {
      AtMostOneCandidate(run, winner, j);
    }
  }
}
