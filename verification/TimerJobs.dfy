/** The timers of a slave on the job table of the io service (supertel/lib/timer.c): arming, cancelling and expiring
    do to the pending read job of a timer's descriptor what `Timers` says, and nothing to any other job. */
module TimerJobs {
  import opened Common
  import J = JobTable
  import T = Timers

  /** What a slot of the job table is to a timer. */
  function Registration(s: J.Slot): T.Registration {
    if s.job == None then T.Unregistered else if s.oneshot then T.OneShot else T.Repeating
  }

  ghost function Of(t: J.Table, fd: int): T.Registration {
    Registration(J.Pending(t, fd, J.Read))
  }

  ghost predicate OthersKept(t: J.Table, u: J.Table, fd: int) {
    forall fd', op :: (fd', op) != (fd, J.Read) ==> J.Pending(u, fd', op) == J.Pending(t, fd', op)
  }

  /** The `io_service_post_job` of `timer_set_deadline` and `timer_set_periodic`. */
  method Post(svc: J.IoService, fd: int, oneshot: bool, callback: nat, ctx: nat)
    requires svc.Valid() && svc.allowNew
    modifies svc
    ensures svc.Valid() && OthersKept(old(svc.table), svc.table, fd)
    ensures Of(svc.table, fd) == T.Post(old(Of(svc.table, fd)), if oneshot then T.OneShot else T.Repeating)
  {
    svc.PostJob(fd, J.Read, oneshot, Some(callback), ctx);
  }

  /** `timer_cancel`. */
  method Cancel(svc: J.IoService, fd: int, ghost timer: T.Timer)
    requires svc.Valid() && timer.registration == Of(svc.table, fd)
    modifies svc
    ensures svc.Valid() && OthersKept(old(svc.table), svc.table, fd)
    ensures Of(svc.table, fd) == T.Cancel(timer).registration
  {
    svc.RemoveJob(fd, J.Read);
  }

  /** An expiry: a job runs if and only if one is registered. */
  method Expire(svc: J.IoService, fd: int, ghost timer: T.Timer) returns (job: Option<J.Job>)
    requires svc.Valid() && timer.registration == Of(svc.table, fd)
    modifies svc
    ensures svc.Valid() && OthersKept(old(svc.table), svc.table, fd)
    ensures (job.Some? <==> timer.registration != T.Unregistered) && Of(svc.table, fd) == T.Fire(timer).registration
  {
    job := svc.Dispatch(fd, J.Read);
  }
}
