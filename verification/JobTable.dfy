/** The job table of the io service (supertel/lib/io-service.c): posting, removing and dispatching jobs. */
module JobTable {
  import opened Common

  datatype Op = Read | Write

  /** A job function with its context. A ticket number tells apart the posts that were accepted. */
  datatype Job = Job(ticket: nat, callback: nat, ctx: nat)

  /** The flag of a slot outlives its job. */
  datatype Slot = Slot(job: Option<Job>, oneshot: bool)

  datatype Entry = Entry(fd: int, events: set<Op>, read: Slot, write: Slot) {
    function At(op: Op): Slot { if op == Read then read else write }

    function Put(op: Op, s: Slot, bits: set<Op>): Entry {
      if op == Read then this.(read := s, events := bits) else this.(write := s, events := bits)
    }
  }

  type Table = seq<Entry>

  /** What happened to a ticket. */
  datatype Event =
    | Accepted(ticket: nat, fd: int, op: Op, oneshot: bool)
    | Removed(ticket: nat)
    | Ran(ticket: nat)

  // ---------------------------------------------------------------- the table

  /** At most one entry per descriptor, and an event bit is set exactly when the job is there. */
  ghost predicate ValidTable(t: Table) {
    && (forall i, j :: 0 <= i < j < |t| ==> t[i].fd != t[j].fd)
    && (forall i, op :: 0 <= i < |t| ==> (op in t[i].events <==> t[i].At(op).job.Some?))
  }

  /** The pending job of a descriptor and operation, as a slot. */
  function Pending(t: Table, fd: int, op: Op): Slot {
    if t == [] then Slot(None, false)
    else if t[0].fd == fd then (if t[0].At(op).job.Some? then t[0].At(op) else Slot(None, false))
    else Pending(t[1..], fd, op)
  }

  lemma {:induction false} PendingAt(t: Table, i: nat, op: Op)
    requires ValidTable(t) && i < |t|
    ensures Pending(t, t[i].fd, op) == if t[i].At(op).job.Some? then t[i].At(op) else Slot(None, false)
  {
    if i > 0 { PendingAt(t[1..], i - 1, op); }
  }

  lemma {:induction false} PendingNowhere(t: Table, fd: int, op: Op)
    requires forall i :: 0 <= i < |t| ==> t[i].fd != fd
    ensures Pending(t, fd, op) == Slot(None, false)
  {
    if t != [] { PendingNowhere(t[1..], fd, op); }
  }

  /** Changing one slot of one entry changes what is pending there and nowhere else. */
  lemma {:induction false} PendingPut(t: Table, i: nat, e: Entry, fd: int, op: Op)
    requires i < |t| && e.fd == t[i].fd && t[i].fd != fd
    ensures Pending(t[i := e], fd, op) == Pending(t, fd, op)
  {
    if i > 0 {
      assert t[i := e][1..] == t[1..][i - 1 := e];
      PendingPut(t[1..], i - 1, e, fd, op);
    }
  }

  lemma {:induction false} PendingAppend(t: Table, e: Entry, fd: int, op: Op)
    requires e.fd != fd
    ensures Pending(t + [e], fd, op) == Pending(t, fd, op)
  {
    if t != [] {
      assert (t + [e])[1..] == t[1..] + [e];
      PendingAppend(t[1..], e, fd, op);
    }
  }

  /** An entry without jobs can be dropped. */
  lemma {:induction false} PendingDrop(t: Table, i: nat, fd: int, op: Op)
    requires ValidTable(t) && i < |t| && t[i].events == {}
    ensures Pending(t[..i] + t[i + 1..], fd, op) == Pending(t, fd, op)
  {
    var u := t[..i] + t[i + 1..];
    if i == 0 {
      assert u == t[1..];
      if t[0].fd == fd { PendingNowhere(t[1..], fd, op); }
      assert op !in t[0].events;
    } else {
      assert u[0] == t[0] && u[1..] == t[1..][..i - 1] + t[1..][i..];
      PendingDrop(t[1..], i - 1, fd, op);
    }
  }

  lemma {:induction false} DropKeepsTable(t: Table, i: nat)
    requires ValidTable(t) && i < |t| && t[i].events == {}
    ensures ValidTable(t[..i] + t[i + 1..]) && Same(t, t[..i] + t[i + 1..])
  {
    var u := t[..i] + t[i + 1..];
    assert forall j :: 0 <= j < |u| ==> u[j] == t[if j < i then j else j + 1];
    forall fd, op ensures Pending(u, fd, op) == Pending(t, fd, op) { PendingDrop(t, i, fd, op); }
  }

  /** Slot `s` is pending for `fd` and `op`, and nothing else has changed. */
  ghost predicate OnlyChanged(t: Table, u: Table, fd: int, op: Op, s: Slot) {
    && Pending(u, fd, op) == s
    && forall fd', op' :: (fd', op') != (fd, op) ==> Pending(u, fd', op') == Pending(t, fd', op')
  }

  ghost predicate Same(t: Table, u: Table) {
    forall fd, op :: Pending(u, fd, op) == Pending(t, fd, op)
  }

  lemma {:induction false} SlotChange(t: Table, i: nat, op: Op, s: Slot) returns (u: Table)
    requires ValidTable(t) && i < |t|
    ensures u == t[i := t[i].Put(op, s, if s.job.Some? then t[i].events + {op} else t[i].events - {op})]
    ensures ValidTable(u) && OnlyChanged(t, u, t[i].fd, op, if s.job.Some? then s else Slot(None, false))
  {
    var e := t[i].Put(op, s, if s.job.Some? then t[i].events + {op} else t[i].events - {op});
    u := t[i := e];
    forall fd', op' | (fd', op') != (t[i].fd, op) ensures Pending(u, fd', op') == Pending(t, fd', op') {
      if fd' == t[i].fd {
        PendingAt(t, i, op');
        PendingAt(u, i, op');
      } else {
        PendingPut(t, i, e, fd', op');
      }
    }
    PendingAt(u, i, op);
  }

  // ---------------------------------------------------------------- the history

  /** The ticket of a pending job was accepted for just that, was not removed, and, if it is oneshot, has not run. */
  ghost predicate Live(log: seq<Event>, s: Slot, fd: int, op: Op) {
    s.job.Some? ==>
      && Accepted(s.job.value.ticket, fd, op, s.oneshot) in log
      && Removed(s.job.value.ticket) !in log
      && (s.oneshot ==> Ran(s.job.value.ticket) !in log)
  }

  ghost predicate WasAccepted(log: seq<Event>, ticket: nat) {
    exists fd, op, oneshot :: Accepted(ticket, fd, op, oneshot) in log
  }

  /** A job runs only after its post was accepted ... */
  ghost predicate AcceptedFirst(log: seq<Event>) {
    forall k :: 0 <= k < |log| && log[k].Ran? ==> WasAccepted(log[..k], log[k].ticket)
  }

  /** ... and not after it was removed ... */
  ghost predicate NotAfterRemoval(log: seq<Event>) {
    forall j, k :: 0 <= j < k < |log| && log[j].Removed? && log[k].Ran? ==> log[j].ticket != log[k].ticket
  }

  /** ... and only once if it is oneshot. */
  ghost predicate OnceIfOneshot(log: seq<Event>) {
    forall i, j, k ::
      0 <= i < |log| && 0 <= j < k < |log| && log[i].Accepted? && log[i].oneshot && log[j].Ran? && log[k].Ran? ==>
        !(log[i].ticket == log[j].ticket == log[k].ticket)
  }

  ghost predicate Orderly(log: seq<Event>) {
    AcceptedFirst(log) && NotAfterRemoval(log) && OnceIfOneshot(log)
  }

  ghost predicate History(log: seq<Event>, next: nat, t: Table) {
    && Orderly(log)
    && (forall k :: 0 <= k < |log| ==> log[k].ticket < next)
    && (forall i, j :: 0 <= i < j < |log| && log[i].Accepted? && log[j].Accepted? ==> log[i].ticket != log[j].ticket)
    && (forall fd, op :: Live(log, Pending(t, fd, op), fd, op))
  }

  lemma {:induction false} HistoryOfSame(log: seq<Event>, next: nat, t: Table, u: Table)
    requires History(log, next, t) && Same(t, u)
    ensures History(log, next, u)
  {
    forall fd, op ensures Live(log, Pending(u, fd, op), fd, op) {
      assert Live(log, Pending(t, fd, op), fd, op);
    }
  }

  lemma {:induction false} OrderlyWithoutRun(log: seq<Event>, e: Event)
    requires Orderly(log) && !e.Ran? && (e.Accepted? ==> forall k :: 0 <= k < |log| ==> log[k].ticket < e.ticket)
    ensures Orderly(log + [e])
  {
    var log' := log + [e];
    assert forall k :: 0 <= k <= |log| ==> log'[..k] == log[..k];
    assert AcceptedFirst(log');
    assert OnceIfOneshot(log');
  }

  lemma {:induction false} HistoryOfPost(log: seq<Event>, next: nat, t: Table, u: Table, fd: int, op: Op, s: Slot)
    requires History(log, next, t) && OnlyChanged(t, u, fd, op, s) && s.job.Some? && s.job.value.ticket == next
    ensures History(log + [Accepted(next, fd, op, s.oneshot)], next + 1, u)
  {
    var log' := log + [Accepted(next, fd, op, s.oneshot)];
    OrderlyWithoutRun(log, log'[|log|]);
    forall fd', op' ensures Live(log', Pending(u, fd', op'), fd', op') {
      assert Live(log, Pending(t, fd', op'), fd', op');
    }
  }

  lemma {:induction false} HistoryOfRemove(log: seq<Event>, next: nat, t: Table, u: Table, fd: int, op: Op)
    requires History(log, next, t) && OnlyChanged(t, u, fd, op, Slot(None, false)) && Pending(t, fd, op).job.Some?
    ensures History(log + [Removed(Pending(t, fd, op).job.value.ticket)], next, u)
  {
    var x := Pending(t, fd, op).job.value.ticket;
    var log' := log + [Removed(x)];
    assert Live(log, Pending(t, fd, op), fd, op);
    OrderlyWithoutRun(log, Removed(x));
    forall fd', op' ensures Live(log', Pending(u, fd', op'), fd', op') {
      assert Live(log, Pending(t, fd', op'), fd', op');
      if Pending(t, fd', op').job.Some? && Pending(t, fd', op').job.value.ticket == x {
        OneTicketOneSlot(log, next, t, fd, op, fd', op');
      }
    }
  }

  lemma {:induction false} OneTicketOneSlot(log: seq<Event>, next: nat, t: Table, fd: int, op: Op, fd': int, op': Op)
    requires History(log, next, t)
    requires Pending(t, fd, op).job.Some? && Pending(t, fd', op').job.Some?
    requires Pending(t, fd, op).job.value.ticket == Pending(t, fd', op').job.value.ticket
    ensures fd == fd' && op == op'
  {
    var x := Pending(t, fd, op).job.value.ticket;
    assert Live(log, Pending(t, fd, op), fd, op) && Live(log, Pending(t, fd', op'), fd', op');
    var i :| 0 <= i < |log| && log[i] == Accepted(x, fd, op, Pending(t, fd, op).oneshot);
    var j :| 0 <= j < |log| && log[j] == Accepted(x, fd', op', Pending(t, fd', op').oneshot);
  }

  lemma {:induction false} HistoryOfRun(log: seq<Event>, next: nat, t: Table, u: Table, fd: int, op: Op)
    requires History(log, next, t) && Pending(t, fd, op).job.Some?
    requires if Pending(t, fd, op).oneshot then OnlyChanged(t, u, fd, op, Slot(None, false)) else Same(t, u)
    ensures History(log + [Ran(Pending(t, fd, op).job.value.ticket)], next, u)
  {
    var x := Pending(t, fd, op).job.value.ticket;
    var log' := log + [Ran(x)];
    assert Live(log, Pending(t, fd, op), fd, op);
    assert Accepted(x, fd, op, Pending(t, fd, op).oneshot) in log;
    OrderlyRun(log, next, t, fd, op);
    forall fd', op' ensures Live(log', Pending(u, fd', op'), fd', op') {
      assert Live(log, Pending(t, fd', op'), fd', op');
      if Pending(t, fd', op').job.Some? && Pending(t, fd', op').job.value.ticket == x {
        OneTicketOneSlot(log, next, t, fd, op, fd', op');
      }
    }
  }

  lemma {:induction false} OrderlyRun(log: seq<Event>, next: nat, t: Table, fd: int, op: Op)
    requires History(log, next, t) && Pending(t, fd, op).job.Some?
    ensures Orderly(log + [Ran(Pending(t, fd, op).job.value.ticket)])
  {
    var s := Pending(t, fd, op);
    var x := s.job.value.ticket;
    assert Live(log, s, fd, op);
    assert AcceptedFirst(log + [Ran(x)]) by {
      assert forall k :: 0 <= k <= |log| ==> (log + [Ran(x)])[..k] == log[..k];
      assert WasAccepted(log, x);
    }
    assert NotAfterRemoval(log + [Ran(x)]);
    var a :| 0 <= a < |log| && log[a] == Accepted(x, fd, op, s.oneshot);
    RunsOnce(log, a);
  }

  lemma {:induction false} RunsOnce(log: seq<Event>, a: nat)
    requires OnceIfOneshot(log) && a < |log| && log[a].Accepted? && (log[a].oneshot ==> Ran(log[a].ticket) !in log)
    requires forall i, j :: 0 <= i < j < |log| && log[i].Accepted? && log[j].Accepted? ==>
             log[i].ticket != log[j].ticket
    ensures OnceIfOneshot(log + [Ran(log[a].ticket)])
  {
  }

  // ---------------------------------------------------------------- the service

  /** A step of the service: a call of the API, possibly by a running job, a notification, or an event on a
      descriptor, whether or not there is a job for it. */
  datatype Step =
    | Post(fd: int, op: Op, oneshot: bool, callback: Option<nat>, ctx: nat)
    | Remove(fd: int, op: Op)
    | Stop(waitPending: bool)
    | Notified
    | Ready(fd: int, op: Op)

  class IoService {
    var table: Table
    var allowNew: bool
    var running: bool
    var notices: nat               // notifications that have not been consumed
    var next: nat                  // the next ticket
    ghost var log: seq<Event>

    ghost predicate Valid()
      reads this
    {
      ValidTable(table) && History(log, next, table)
    }

    constructor ()
      ensures Valid() && log == [] && table == [] && allowNew
    {
      table, allowNew, running, notices, log, next := [], true, true, 0, [], 0;
    }

    method Find(fd: int) returns (i: nat)
      ensures i <= |table| && (i < |table| ==> table[i].fd == fd)
      ensures forall j :: 0 <= j < i ==> table[j].fd != fd
    {
      i := 0;
      while i < |table| && table[i].fd != fd
        invariant i <= |table| && forall j :: 0 <= j < i ==> table[j].fd != fd
      {
        i := i + 1;
      }
    }

    /** A job is accepted only where none is pending; a pending job is never replaced. */
    method PostJob(fd: int, op: Op, oneshot: bool, callback: Option<nat>, ctx: nat)
      requires Valid()
      modifies this
      ensures Valid()
      ensures var accepted := old(allowNew) && callback.Some? && old(Pending(table, fd, op)).job == None;
              if accepted
              then OnlyChanged(old(table), table, fd, op, Slot(Some(Job(old(next), callback.value, ctx)), oneshot))
                   && log == old(log) + [Accepted(old(next), fd, op, oneshot)]
              else Same(old(table), table) && log == old(log)
    {
      if !allowNew || callback == None { return; }
      var i := Find(fd);
      if i == |table| {
        AppendEmpty(table, fd);
        HistoryOfSame(log, next, table, table + [Entry(fd, {}, Slot(None, false), Slot(None, false))]);
        table := table + [Entry(fd, {}, Slot(None, false), Slot(None, false))];
      }
      PendingAt(table, i, op);
      if table[i].At(op).job == None {
        var slot := Slot(Some(Job(next, callback.value, ctx)), oneshot);
        ghost var u := SlotChange(table, i, op, slot);
        HistoryOfPost(log, next, table, u, fd, op, slot);
        table := table[i := table[i].Put(op, slot, table[i].events + {op})];
        log, next := log + [Accepted(next, fd, op, oneshot)], next + 1;
        if running { notices := notices + 1; }
      }
    }

    /** A removed job is gone; its entry stays until the service is notified. */
    method RemoveJob(fd: int, op: Op)
      requires Valid()
      modifies this
      ensures Valid()
      ensures var s := old(Pending(table, fd, op));
              if s.job.Some?
              then OnlyChanged(old(table), table, fd, op, Slot(None, false))
                  && log == old(log) + [Removed(s.job.value.ticket)]
              else Same(old(table), table) && log == old(log)
    {
      var i := Find(fd);
      if i == |table| {
        PendingNowhere(table, fd, op);
        return;
      }
      PendingAt(table, i, op);
      var slot := table[i].At(op);
      ghost var u := SlotChange(table, i, op, slot.(job := None));
      if slot.job.Some? {
        HistoryOfRemove(log, next, table, u, fd, op);
        log := log + [Removed(slot.job.value.ticket)];
        if running { notices := notices + 1; }
      } else {
        HistoryOfSame(log, next, table, u);
      }
      table := table[i := table[i].Put(op, slot.(job := None), table[i].events - {op})];
    }

    /** `io_service_stop`. */
    method StopService(waitPending: bool)
      requires Valid()
      modifies this
      ensures Valid() && table == old(table) && log == old(log) && !allowNew && running == waitPending
    {
      allowNew, running, notices := false, waitPending, notices + 1;
    }

    /** A notification drops the entries without jobs, and ends the service when there is nothing left to do. */
    method Notice()
      requires Valid()
      modifies this
      ensures Valid() && Same(old(table), table) && log == old(log)
      ensures forall i :: 0 <= i < |table| ==> table[i].events != {}
      ensures running == (old(running) && !(old(table) == [] && !old(allowNew)))
    {
      if notices > 0 { notices := notices - 1; }
      if |table| == 0 && !allowNew { running := false; }
      var i := 0;
      while i < |table|
        invariant 0 <= i <= |table| && ValidTable(table) && Same(old(table), table)
        invariant forall j :: 0 <= j < i ==> table[j].events != {}
        modifies `table
        decreases |table| - i
      {
        if table[i].events == {} {
          DropKeepsTable(table, i);
          table := table[..i] + table[i + 1..];
        } else {
          i := i + 1;
        }
      }
      HistoryOfSame(log, next, old(table), table);
    }

    /** An event on a descriptor: the pending job runs; a oneshot job is dropped before it does. */
    method Dispatch(fd: int, op: Op) returns (job: Option<Job>)
      requires Valid()
      modifies this
      ensures Valid() && job == old(Pending(table, fd, op)).job
      ensures log == old(log) + if job.Some? then [Ran(job.value.ticket)] else []
      ensures if job.Some? && old(Pending(table, fd, op)).oneshot
              then OnlyChanged(old(table), table, fd, op, Slot(None, false)) else Same(old(table), table)
    {
      var i := Find(fd);
      if i == |table| {
        PendingNowhere(table, fd, op);
        return None;
      }
      PendingAt(table, i, op);
      var slot := table[i].At(op);
      job := slot.job;
      ghost var before := table;
      if slot.oneshot {
        ghost var u := SlotChange(table, i, op, slot.(job := None));
        table := table[i := table[i].Put(op, slot.(job := None), table[i].events - {op})];
        if table[i].events == {} {
          DropKeepsTable(table, i);
          table := table[..i] + table[i + 1..];
        }
      }
      if job.Some? {
        HistoryOfRun(log, next, before, table, fd, op);
        log := log + [Ran(job.value.ticket)];
      } else {
        HistoryOfSame(log, next, before, table);
      }
    }

    method DoStep(step: Step)
      requires Valid()
      modifies this
      ensures Valid() && old(log) <= log
      ensures match step
              case Post(fd, op, oneshot, callback, ctx) =>
                if old(allowNew) && callback.Some? && old(Pending(table, fd, op)).job == None
                then && OnlyChanged(old(table), table, fd, op, Slot(Some(Job(old(next), callback.value, ctx)), oneshot))
                     && log == old(log) + [Accepted(old(next), fd, op, oneshot)]
                else Same(old(table), table) && log == old(log)
              case Remove(fd, op) =>
                var s := old(Pending(table, fd, op));
                if s.job.Some?
                then && OnlyChanged(old(table), table, fd, op, Slot(None, false))
                     && log == old(log) + [Removed(s.job.value.ticket)]
                else Same(old(table), table) && log == old(log)
              case Ready(fd, op) =>
                var s := old(Pending(table, fd, op));
                && log == old(log) + (if s.job.Some? then [Ran(s.job.value.ticket)] else [])
                && if s.job.Some? && s.oneshot then OnlyChanged(old(table), table, fd, op, Slot(None, false))
                   else Same(old(table), table)
              case Stop(_) => table == old(table) && log == old(log) && !allowNew
              case Notified => Same(old(table), table) && log == old(log)
    {
      match step
      case Post(fd, op, oneshot, callback, ctx) => PostJob(fd, op, oneshot, callback, ctx);
      case Remove(fd, op) => RemoveJob(fd, op);
      case Stop(waitPending) => StopService(waitPending);
      case Notified => Notice();
      case Ready(fd, op) => var job := Dispatch(fd, op);
    }

    /** Every run, with the calls of the jobs themselves among its steps: one entry per descriptor, event bits that
        match the jobs, and a history in which no job runs that was not accepted, was removed, or is oneshot and
        has run before. */
    method Run(steps: seq<Step>)
      requires Valid()
      modifies this
      ensures Valid() && ValidTable(table) && Orderly(log) && old(log) <= log
    {
      for i := 0 to |steps|
        invariant Valid() && old(log) <= log
      {
        DoStep(steps[i]);
      }
    }
  }

  lemma {:induction false} AppendEmpty(t: Table, fd: int)
    requires ValidTable(t) && forall i :: 0 <= i < |t| ==> t[i].fd != fd
    ensures var u := t + [Entry(fd, {}, Slot(None, false), Slot(None, false))]; ValidTable(u) && Same(t, u)
  {
    var e := Entry(fd, {}, Slot(None, false), Slot(None, false));
    var u := t + [e];
    forall fd', op ensures Pending(u, fd', op) == Pending(t, fd', op) {
      if fd' == fd {
        PendingNowhere(t, fd, op);
        assert u[|t|] == e;
        PendingAt(u, |t|, op);
      } else {
        PendingAppend(t, e, fd', op);
      }
    }
  }
}
