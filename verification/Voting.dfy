/** What a vote does to one slave: the part of a slave that takes part in an election
    (supertel/task1/src/slave.c), stated as one transition per event. */
module Voting {
  import opened Common

  datatype State = Idle | Polling | Master | WaitingMaster

  /** The three fields of a slave that an election reads and writes. */
  datatype Voter = Voter(state: State, voteSent: nat, maxVote: nat)

  datatype Reaction = Reaction(voter: Voter, broadcast: Option<nat>)

  /** A drawn vote: odd, so never zero, and within 32 bits. */
  predicate IsDraw(v: int) {
    0 < v < 0x1_0000_0000 && v % 2 == 1
  }

  /** `(rnd & 0xfffffffe) + 1`, where `random()` yields a non-negative 31-bit number. */
  function Draw(rnd: nat): (v: nat)
    requires rnd < 0x8000_0000
    ensures IsDraw(v) && (v == rnd || v == rnd + 1)
  {
    rnd - rnd % 2 + 1
  }

  function Max(a: nat, b: nat): nat { if a < b then b else a }

  /** The reaction to a received vote `v`, when a slave that has to vote draws `draw`. */
  function OnVote(s: Voter, v: nat, draw: nat): Reaction {
    match s.state
    case WaitingMaster => Reaction(s, None)
    case Polling =>
      if v > s.voteSent then Reaction(Voter(WaitingMaster, s.voteSent, Max(s.maxVote, v)), None)
      else if v < s.voteSent then Reaction(s.(maxVote := Max(s.maxVote, v)), None)
      else Reaction(Voter(Polling, draw, 0), Some(draw))
    case _ =>
      if draw > v then Reaction(Voter(Polling, draw, v), Some(draw))
      else Reaction(Voter(WaitingMaster, draw, v), None)
  }

  /** The reaction to the disappearance of the master. */
  function OnMasterGone(draw: nat): Reaction {
    Reaction(Voter(Polling, draw, 0), Some(draw))
  }

  /** The reaction to the end of the polling interval. */
  function OnPollTimeout(s: Voter): Voter {
    if s.state == Polling then Voter(Master, 0, 0) else s
  }

  /** Votes that a polling slave refuses, one after another. */
  function AfterVotes(s: Voter, votes: seq<nat>): Voter {
    if votes == [] then s else OnVote(AfterVotes(s, votes[..|votes| - 1]), votes[|votes| - 1], 0).voter
  }

  /** Smaller votes leave a slave in the poll with its own vote, and the largest of them is remembered. */
  lemma {:induction false} SmallerVotesAreRemembered(s: Voter, votes: seq<nat>)
    requires s.state == Polling && forall v :: v in votes ==> v < s.voteSent
    ensures var r := AfterVotes(s, votes);
            && r.state == Polling && r.voteSent == s.voteSent
            && (r.maxVote == s.maxVote || r.maxVote in votes)
            && s.maxVote <= r.maxVote && forall v :: v in votes ==> v <= r.maxVote
  {
    if votes != [] {
      var head, last := votes[..|votes| - 1], votes[|votes| - 1];
      assert votes == head + [last] && last in votes && forall v :: v in head ==> v in votes;
      SmallerVotesAreRemembered(s, head);
    }
  }
}
