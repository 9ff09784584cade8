/** Timers (supertel/lib/timer.c) as far as one slave can observe them through the io service:
    whether a job is registered for the timer's descriptor, what it runs, and when. */
module Timers {

  datatype Registration = Unregistered | OneShot | Repeating
  datatype Kind = Fresh | Relative | Periodic
  datatype Job = Nothing | MasterGone | PollTimeout | Mastering

  datatype Timer = Timer(registration: Registration, kind: Kind, job: Job, deadline: int, armed: bool)

  const NewTimer := Timer(Unregistered, Fresh, Nothing, 0, false)

  /** The io service never replaces a job that is already registered. */
  function Post(current: Registration, wanted: Registration): Registration {
    if current == Unregistered then wanted else current
  }

  function SetDeadline(t: Timer, job: Job, at: int): Timer {
    Timer(Post(t.registration, OneShot), Relative, job, at, true)
  }

  function SetPeriodic(t: Timer, job: Job, first: int): Timer {
    Timer(Post(t.registration, Repeating), Periodic, job, first, true)
  }

  function Cancel(t: Timer): Timer {
    t.(registration := Unregistered)
  }

  /** The io service drops a one-shot job before it runs it. */
  function Fire(t: Timer): Timer {
    if t.registration == OneShot then t.(registration := Unregistered) else t
  }

  /** What the timer's own job does after the user's one. */
  function AfterJob(t: Timer): Timer {
    if t.kind != Periodic then t.(armed := false) else t
  }

  /** An expiry whose job does not touch the timer. */
  function Expired(t: Timer): Timer {
    if t.registration == Unregistered then t else AfterJob(Fire(t))
  }
}

/** A slave as a single machine (supertel/task1/src/slave.c): four states, two live timers and an
    embedded master, driven by packets and timer expiries. */
module SlaveMachine {
  import opened Common
  import opened Voting
  import opened Timers

  const MASTER_REQUEST_TIMEOUT_MSEC := 5000
  const MASTER_GONE_TIMEOUT_MSEC := MASTER_REQUEST_TIMEOUT_MSEC * 2
  const SLAVE_POLLING_TIMEOUT_MSEC := 1000
  const MASTERING_TIMEOUT_MSEC := MASTER_REQUEST_TIMEOUT_MSEC / 2

  datatype Packet = Request | Response | Msg | Vote(vote: nat) | ResetMaster

  /** Events of the io service loop. `rnd` is what `random()` yields if the slave has to vote. */
  datatype Event =
    | Arrival(packet: Packet, now: int, rnd: nat)
    | MasterGoneExpired(now: int, rnd: nat)
    | PollTimerExpired(now: int)

  predicate ValidEvent(e: Event) {
    match e
    case Arrival(p, _, rnd) => rnd < 0x8000_0000 && (p.Vote? ==> p.vote < 0x1_0000_0000)
    case MasterGoneExpired(_, rnd) => rnd < 0x8000_0000
    case PollTimerExpired(_) => true
  }

  /** What an event makes of the voting part of a slave that keeps its invariant. */
  function OnEvent(s: Voter, e: Event): Reaction
    requires ValidEvent(e)
  {
    match e
    case Arrival(Vote(v), _, rnd) => OnVote(s, v, Draw(rnd))
    case Arrival(Response, _, _) => Reaction(s, None)
    case Arrival(_, _, _) => Reaction(Voter(Idle, 0, 0), None)
    case MasterGoneExpired(_, rnd) =>
      if s.state in {Idle, WaitingMaster} then OnMasterGone(Draw(rnd)) else Reaction(s, None)
    case PollTimerExpired(_) => Reaction(OnPollTimeout(s), None)
  }

  function Votes(b: Option<nat>): seq<Packet> {
    if b.Some? then [Vote(b.value)] else []
  }

  /** A whole history of events, and the votes it broadcasts. */
  function AfterEvents(s: Voter, events: seq<Event>): Voter
    requires forall e :: e in events ==> ValidEvent(e)
  {
    if events == [] then s
    else OnEvent(AfterEvents(s, events[..|events| - 1]), events[|events| - 1]).voter
  }

  function Time(e: Event): int { e.now }

  predicate FromMaster(e: Event) { e.Arrival? && (e.packet.Request? || e.packet.Msg?) }

  /** No vote arrives, and nothing happens as late as the timeout after the latest packet of the master. */
  predicate Attended(last: int, events: seq<Event>)
    decreases |events|
  {
    events != [] ==>
      && Time(events[0]) < last + MASTER_GONE_TIMEOUT_MSEC && !(events[0].Arrival? && events[0].packet.Vote?)
      && Attended(if FromMaster(events[0]) then Time(events[0]) else last, events[1..])
  }

  /** A request is answered in every state. */
  function Replies(p: Packet): seq<Packet> {
    if p.Request? then [Response] else []
  }

  class Slave {
    var state: State
    var voteSent: nat
    var maxVote: nat
    var masterGoneTmr: Timer
    var pollTmr: Timer
    var masterUp: bool            // the embedded master is initialised
    var sent: seq<Packet>         // everything sent so far
    ghost var votedAt: int        // when the latest vote was broadcast

    ghost function AsVoter(): Voter
      reads this
    {
      Voter(state, voteSent, maxVote)
    }

    /** The invariant of every run. */
    ghost predicate Valid()
      reads this
    {
      && voteSent < 0x1_0000_0000 && maxVote < 0x1_0000_0000
      && (state in {Idle, Master} ==> voteSent == 0 && maxVote == 0)
      && (state == Polling ==>
            && IsDraw(voteSent) && maxVote < voteSent && Vote(voteSent) in sent
            && pollTmr == Timer(OneShot, Relative, PollTimeout, votedAt + SLAVE_POLLING_TIMEOUT_MSEC, true))
      && (masterGoneTmr.registration != Unregistered <==> state in {Idle, WaitingMaster})
      && (masterGoneTmr.registration != Unregistered ==>
            masterGoneTmr.registration == OneShot && masterGoneTmr.job == MasterGone)
      && (pollTmr.registration == Repeating <==> state == Master)
      && (pollTmr.registration == Repeating ==> pollTmr.job == Mastering)
      && (pollTmr.registration == OneShot ==> pollTmr.job == PollTimeout)
      && (masterUp <==> state == Master)
    }

    /** Idle, with no vote of any poll left, and not the master. */
    ghost predicate AtRest()
      reads this
    {
      state == Idle && voteSent == 0 && maxVote == 0 && !masterUp
    }

    /** A vote has drawn the slave into a poll: it polls with a larger vote, just broadcast, or it waits for the
        master. */
    ghost predicate TakesPart(vote: nat, now: int, draw: nat)
      reads this
    {
      && voteSent == draw && maxVote == vote
      && if draw > vote
         then state == Polling && votedAt == now && pollTmr.deadline == now + SLAVE_POLLING_TIMEOUT_MSEC
         else state == WaitingMaster && masterGoneTmr.deadline == now + MASTER_GONE_TIMEOUT_MSEC
    }

    /** `slave_init` and the start of `slave_run`. */
    constructor (now: int)
      ensures Valid() && AtRest() && sent == [] && masterGoneTmr.deadline == now + MASTER_GONE_TIMEOUT_MSEC
    {
      state, voteSent, maxVote := Idle, 0, 0;
      masterGoneTmr := SetDeadline(NewTimer, MasterGone, now + MASTER_GONE_TIMEOUT_MSEC);
      pollTmr := NewTimer;
      masterUp, sent, votedAt := false, [], 0;
    }

    method GoIdle(now: int)
      modifies `state, `voteSent, `maxVote, `masterGoneTmr
      ensures AsVoter() == Voter(Idle, 0, 0)
      ensures masterGoneTmr == SetDeadline(old(masterGoneTmr), MasterGone, now + MASTER_GONE_TIMEOUT_MSEC)
    {
      state := Idle;
      maxVote, voteSent := 0, 0;
      ArmMasterGone(now);
    }

    method ArmMasterGone(now: int)
      modifies `masterGoneTmr
      ensures masterGoneTmr == SetDeadline(old(masterGoneTmr), MasterGone, now + MASTER_GONE_TIMEOUT_MSEC)
    {
      masterGoneTmr := SetDeadline(masterGoneTmr, MasterGone, now + MASTER_GONE_TIMEOUT_MSEC);
    }

    method PrepareToPoll(vote: Option<nat>)
      modifies `state, `voteSent, `maxVote, `masterGoneTmr
      ensures AsVoter() == Voter(Polling, 0, if vote.Some? then vote.value else 0)
      ensures masterGoneTmr == Cancel(old(masterGoneTmr))
    {
      state := Polling;
      maxVote := if vote.Some? then vote.value else 0;
      voteSent := 0;
      masterGoneTmr := Cancel(masterGoneTmr);
    }

    method FinishMasterPolling(newState: State, now: int)
      modifies `state, `voteSent, `maxVote, `masterGoneTmr, `pollTmr
      ensures AsVoter() == if newState == WaitingMaster then Voter(WaitingMaster, old(voteSent), old(maxVote))
                          else Voter(newState, 0, 0)
      ensures pollTmr == if old(state) == Polling then Cancel(old(pollTmr)) else old(pollTmr)
      ensures masterGoneTmr == if newState == WaitingMaster
                               then SetDeadline(old(masterGoneTmr), MasterGone, now + MASTER_GONE_TIMEOUT_MSEC)
                               else old(masterGoneTmr)
    {
      if state == Polling { pollTmr := Cancel(pollTmr); }
      state := newState;
      if state != WaitingMaster { voteSent, maxVote := 0, 0; }
      if state == WaitingMaster { ArmMasterGone(now); }
    }

    /** `slave_poll`: draw a vote and broadcast it, unless it is known not to be the largest. */
    method Poll(now: int, rnd: nat)
      requires rnd < 0x8000_0000 && state == Polling
      requires masterGoneTmr.registration == Unregistered
      requires pollTmr.registration != Repeating && !masterUp && maxVote < 0x1_0000_0000
      modifies this
      ensures AsVoter() == Voter(if Draw(rnd) > old(maxVote) then Polling else WaitingMaster, Draw(rnd), old(maxVote))
      ensures sent == old(sent) + if Draw(rnd) > old(maxVote) then [Vote(Draw(rnd))] else []
      ensures Draw(rnd) > old(maxVote) ==> votedAt == now && pollTmr.deadline == now + SLAVE_POLLING_TIMEOUT_MSEC
      ensures Draw(rnd) <= old(maxVote) ==> masterGoneTmr.deadline == now + MASTER_GONE_TIMEOUT_MSEC
      ensures Valid() && masterUp == old(masterUp)
    {
      var v := Draw(rnd);
      voteSent := v;
      if !(v > maxVote) {
        FinishMasterPolling(WaitingMaster, now);
        return;
      }
      sent := sent + [Vote(v)];
      votedAt := now;
      pollTmr := SetDeadline(pollTmr, PollTimeout, now + SLAVE_POLLING_TIMEOUT_MSEC);
    }

    method ActIdle(p: Packet, now: int, rnd: nat)
      requires Valid() && state == Idle && ValidEvent(Arrival(p, now, rnd))
      modifies this
      ensures Valid() && AsVoter() == OnEvent(old(AsVoter()), Arrival(p, now, rnd)).voter
      ensures sent == old(sent) + Replies(p) + Votes(OnEvent(old(AsVoter()), Arrival(p, now, rnd)).broadcast)
      ensures p.Request? || p.Msg? ==> AtRest() && masterGoneTmr.deadline == now + MASTER_GONE_TIMEOUT_MSEC
      ensures p.ResetMaster? || p.Response? ==>
                AtRest() && masterGoneTmr == old(masterGoneTmr) && pollTmr == old(pollTmr)
      ensures p.Vote? ==> TakesPart(p.vote, now, Draw(rnd)) && masterUp == old(masterUp)
    {
      match p
      case Request =>
        ArmMasterGone(now);
        sent := sent + [Response];
      case Msg =>
        ArmMasterGone(now);
      case Vote(v) =>
        PrepareToPoll(Some(v));
        Poll(now, rnd);
      case _ =>
    }

    method ActPoll(p: Packet, now: int, rnd: nat)
      requires Valid() && state == Polling && ValidEvent(Arrival(p, now, rnd))
      modifies this
      ensures Valid() && AsVoter() == OnEvent(old(AsVoter()), Arrival(p, now, rnd)).voter
      ensures sent == old(sent) + Replies(p) + Votes(OnEvent(old(AsVoter()), Arrival(p, now, rnd)).broadcast)
      ensures p.Request? || p.Msg? || p.ResetMaster? ==>
                AtRest() && masterGoneTmr.deadline == now + MASTER_GONE_TIMEOUT_MSEC
      ensures p.Response? ==>
                AsVoter() == old(AsVoter()) && masterGoneTmr == old(masterGoneTmr) && pollTmr == old(pollTmr)
      ensures p.Vote? && p.vote > old(voteSent) ==>
                && state == WaitingMaster && voteSent == old(voteSent) && maxVote == p.vote
                && masterGoneTmr.deadline == now + MASTER_GONE_TIMEOUT_MSEC && pollTmr.registration == Unregistered
      ensures p.Vote? && p.vote < old(voteSent) ==>
                && state == Polling && voteSent == old(voteSent) && maxVote == Max(old(maxVote), p.vote)
                && votedAt == old(votedAt) && pollTmr == old(pollTmr)
      ensures p.Vote? && p.vote == old(voteSent) ==>
                && state == Polling && voteSent == Draw(rnd) && maxVote == 0 && votedAt == now
                && pollTmr.deadline == now + SLAVE_POLLING_TIMEOUT_MSEC
    {
      match p
      case Vote(v) =>
        if maxVote < v { maxVote := v; }
        if v > voteSent {
          FinishMasterPolling(WaitingMaster, now);
        } else if v == voteSent {
          PrepareToPoll(None);
          Poll(now, rnd);
        }
      case ResetMaster =>
        GoIdle(now);
        FinishMasterPolling(Idle, now);
      case Response =>
      case _ =>
        GoIdle(now);
        FinishMasterPolling(Idle, now);
        ActIdle(p, now, rnd);
    }

    /** Give up being the master. */
    method StopMastering(now: int)
      modifies this
      ensures AsVoter() == Voter(Idle, 0, 0) && !masterUp && sent == old(sent)
      ensures pollTmr == Cancel(old(pollTmr))
      ensures masterGoneTmr == SetDeadline(old(masterGoneTmr), MasterGone, now + MASTER_GONE_TIMEOUT_MSEC)
    {
      masterUp := false;
      pollTmr := Cancel(pollTmr);
      GoIdle(now);
    }

    method ActMaster(p: Packet, now: int, rnd: nat)
      requires Valid() && state == Master && ValidEvent(Arrival(p, now, rnd))
      modifies this
      ensures Valid() && AsVoter() == OnEvent(old(AsVoter()), Arrival(p, now, rnd)).voter
      ensures sent == old(sent) + Replies(p) + Votes(OnEvent(old(AsVoter()), Arrival(p, now, rnd)).broadcast)
      ensures p.Request? || p.Msg? || p.ResetMaster? ==>
                AtRest() && masterGoneTmr.deadline == now + MASTER_GONE_TIMEOUT_MSEC
      ensures p.Response? ==>
                AsVoter() == old(AsVoter()) && masterGoneTmr == old(masterGoneTmr) && pollTmr == old(pollTmr)
      ensures p.Vote? ==> TakesPart(p.vote, now, Draw(rnd)) && !masterUp
    {
      match p
      case Vote(v) =>
        if voteSent != 0 { return; }
        StopMastering(now);
        PrepareToPoll(Some(v));
        Poll(now, rnd);
      case Request =>
        StopMastering(now);
        sent := sent + [Response];
      case Msg =>
        StopMastering(now);
      case ResetMaster =>
        StopMastering(now);
      case Response =>
    }

    method ActWaitingMaster(p: Packet, now: int, rnd: nat)
      requires Valid() && state == WaitingMaster && ValidEvent(Arrival(p, now, rnd))
      modifies this
      ensures Valid() && AsVoter() == OnEvent(old(AsVoter()), Arrival(p, now, rnd)).voter
      ensures sent == old(sent) + Replies(p)
      ensures p.Request? || p.Msg? || p.ResetMaster? ==>
                AtRest() && masterGoneTmr.deadline == now + MASTER_GONE_TIMEOUT_MSEC
      ensures p.Vote? || p.Response? ==>
                AsVoter() == old(AsVoter()) && masterGoneTmr == old(masterGoneTmr) && pollTmr == old(pollTmr)
    {
      match p
      case Vote(_) =>
      case Response =>
      case _ =>
        GoIdle(now);
        ActIdle(p, now, rnd);
    }

    /** The job of the master-gone timer. */
    method MasterTimedOut(now: int, rnd: nat)
      requires state in {Idle, WaitingMaster} && rnd < 0x8000_0000
      requires masterGoneTmr.registration == Unregistered && pollTmr.registration != Repeating && !masterUp
      modifies this
      ensures Valid() && AsVoter() == OnMasterGone(Draw(rnd)).voter && sent == old(sent) + [Vote(Draw(rnd))]
      ensures TakesPart(0, now, Draw(rnd))
    {
      PrepareToPoll(None);
      Poll(now, rnd);
    }

    /** The job of the poll timer while a vote is pending. */
    method PollTimedOut(now: int)
      requires state == Polling ==> masterGoneTmr.registration == Unregistered
      modifies this
      ensures AsVoter() == OnPollTimeout(old(AsVoter()))
      ensures sent == old(sent) && masterGoneTmr == old(masterGoneTmr) && votedAt == old(votedAt)
      ensures old(state) != Polling ==> pollTmr == old(pollTmr) && masterUp == old(masterUp)
      ensures old(state) == Polling ==>
                masterUp && pollTmr == Timer(Repeating, Periodic, Mastering, now + MASTERING_TIMEOUT_MSEC, true)
    {
      if state == Polling {
        pollTmr := Cancel(pollTmr);
        FinishMasterPolling(Master, now);
        masterUp := true;
        pollTmr := SetPeriodic(pollTmr, Mastering, now + MASTERING_TIMEOUT_MSEC);
      }
    }

    /** One event: a packet, or an expiry, which the io service drops when no job is registered. In every state, the
        packets of a master lay the slave to rest and renew its deadline, a response changes nothing, and a vote draws
        an idle slave or a master into a poll and does nothing to a slave that waits. */
    method Dispatch(e: Event)
      requires Valid() && ValidEvent(e)
      modifies this
      ensures e.Arrival? && (e.packet.Request? || e.packet.Msg?) ==>
                && AtRest() && masterGoneTmr.deadline == e.now + MASTER_GONE_TIMEOUT_MSEC
                && sent == old(sent) + if e.packet.Request? then [Response] else []
      ensures e.Arrival? && e.packet.ResetMaster? ==>
                && AtRest() && sent == old(sent)
                && if old(state) == Idle then masterGoneTmr == old(masterGoneTmr)
                   else masterGoneTmr.deadline == e.now + MASTER_GONE_TIMEOUT_MSEC
      ensures e.Arrival? && (e.packet.Response? || (e.packet.Vote? && old(state) == WaitingMaster)) ==>
                && AsVoter() == old(AsVoter()) && sent == old(sent)
                && masterGoneTmr == old(masterGoneTmr) && pollTmr == old(pollTmr)
      ensures e.Arrival? && e.packet.Vote? && old(state) in {Idle, Master} ==>
                && TakesPart(e.packet.vote, e.now, Draw(e.rnd)) && !masterUp
                && sent == old(sent) + if Draw(e.rnd) > e.packet.vote then [Vote(Draw(e.rnd))] else []
      ensures e.MasterGoneExpired? ==>
                if old(state) in {Idle, WaitingMaster}
                then TakesPart(0, e.now, Draw(e.rnd)) && sent == old(sent) + [Vote(Draw(e.rnd))]
                else AsVoter() == old(AsVoter()) && sent == old(sent) && pollTmr == old(pollTmr)
      ensures e.PollTimerExpired? ==> sent == old(sent) && (old(state) == Polling ==> state == Master && masterUp)
      ensures Valid() && AsVoter() == OnEvent(old(AsVoter()), e).voter
      ensures sent == old(sent) + (if e.Arrival? then Replies(e.packet) else [])
                      + Votes(OnEvent(old(AsVoter()), e).broadcast)
      ensures e.PollTimerExpired? && old(state) != Polling ==>
                && masterUp == old(masterUp) && masterGoneTmr == old(masterGoneTmr) && votedAt == old(votedAt)
                && pollTmr == Expired(old(pollTmr)) && (pollTmr.registration != Unregistered <==> old(state) == Master)
    {
      match e
      case Arrival(p, now, rnd) =>
        match state {
          case Idle => ActIdle(p, now, rnd);
          case Polling => ActPoll(p, now, rnd);
          case Master => ActMaster(p, now, rnd);
          case WaitingMaster => ActWaitingMaster(p, now, rnd);
        }
      case MasterGoneExpired(now, rnd) =>
        if masterGoneTmr.registration != Unregistered {
          masterGoneTmr := Fire(masterGoneTmr);
          MasterTimedOut(now, rnd);
          masterGoneTmr := AfterJob(masterGoneTmr);
        }
      case PollTimerExpired(now) =>
        if pollTmr.registration != Unregistered {
          pollTmr := Fire(pollTmr);
          if pollTmr.job == PollTimeout { PollTimedOut(now); }
          pollTmr := AfterJob(pollTmr);
        }
    }

    /** Every run: the invariant survives any sequence of events, and the voting part of the slave
        is exactly what the transitions of the election say. */
    method Run(events: seq<Event>)
      requires Valid() && forall e :: e in events ==> ValidEvent(e)
      modifies this
      ensures Valid() && AsVoter() == AfterEvents(old(AsVoter()), events)
    {
      for i := 0 to |events|
        invariant Valid() && AsVoter() == AfterEvents(old(AsVoter()), events[..i])
      {
        assert events[..i + 1][..i] == events[..i];
        Dispatch(events[i]);
      }
      assert events[..|events|] == events;
    }

    /** Under a living master, whatever else happens, a slave at rest stays so and sends nothing but responses: an
        expiry is not due before its deadline. */
    method Follow(events: seq<Event>, ghost last: int)
      requires Valid() && AtRest() && masterGoneTmr.deadline == last + MASTER_GONE_TIMEOUT_MSEC
      requires Attended(last, events) && forall e :: e in events ==> ValidEvent(e)
      modifies this
      ensures Valid() && AtRest() && old(sent) <= sent && forall k :: |old(sent)| <= k < |sent| ==> sent[k] == Response
    {
      ghost var latest := last;
      for i := 0 to |events|
        invariant Valid() && AtRest() && masterGoneTmr.deadline == latest + MASTER_GONE_TIMEOUT_MSEC
        invariant Attended(latest, events[i..])
        invariant old(sent) <= sent && forall k :: |old(sent)| <= k < |sent| ==> sent[k] == Response
      {
        var e := events[i];
        assert events[i..][0] == e && events[i..][1..] == events[i + 1..];
        if !(e.MasterGoneExpired? && e.now < masterGoneTmr.deadline) { Dispatch(e); }
        if FromMaster(e) { latest := Time(e); }
      }
    }
  }
}
