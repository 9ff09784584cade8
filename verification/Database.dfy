/** The database service (satellite-soft-labs): what a serial execution of the requests means. */
module SerialDatabase {
  import opened Common

  datatype Fields = Fields(firstName: string, lastName: string, birthDate: string)
  datatype Record = Record(id: nat, fields: Fields)

  /** A request; a post without all of its three fields has none. */
  datatype Request = Get(id: nat) | Post(id: nat, fields: Option<Fields>) | Delete(id: nat) | Invalid

  datatype Kind = Ok | BadRequest | NotFound
  datatype Reply = Reply(kind: Kind, records: seq<Record>)

  /** The table, and the next number of its serial column. */
  datatype Table = Table(rows: map<nat, Fields>, nextId: nat)

  predicate ValidTable(t: Table) {
    0 < t.nextId && forall id :: id in t.rows ==> 0 < id < t.nextId
  }

  function Updated(t: Table, r: Request): Table {
    match r
    case Post(id, Some(f)) =>
      if id == 0 then Table(t.rows[t.nextId := f], t.nextId + 1)
      else if id in t.rows then t.(rows := t.rows[id := f]) else t
    case Delete(id) => t.(rows := t.rows - {id})
    case _ => t
  }

  /** `s` lists every row once, in some order. */
  ghost predicate IsListing(s: seq<Record>, rows: map<nat, Fields>) {
    && (forall i :: 0 <= i < |s| ==> s[i].id in rows && s[i].fields == rows[s[i].id])
    && (forall i, j :: 0 <= i < j < |s| ==> s[i].id != s[j].id)
    && (forall id :: id in rows ==> Record(id, rows[id]) in s)
  }

  /** What a request must be answered with on table `t`. The kind of the answer to a request for all records
      is not set: it is the kind of the answer before. */
  ghost predicate Answers(t: Table, r: Request, before: Kind, reply: Reply) {
    match r
    case Get(id) =>
      if id == 0 then IsListing(reply.records, t.rows) && reply.kind == before
      else if id in t.rows then reply == Reply(Ok, [Record(id, t.rows[id])])
      else reply == Reply(NotFound, [])
    case Post(id, None) => reply == Reply(BadRequest, [])
    case Post(id, Some(_)) => reply == Reply(if id == 0 || id in t.rows then Ok else NotFound, [])
    case Delete(id) => reply == Reply(if id == 0 then BadRequest else if id in t.rows then Ok else NotFound, [])
    case Invalid => reply == Reply(BadRequest, [])
  }

  /** The table after some requests, latest last. */
  function After(t: Table, rs: seq<Request>): Table {
    if rs == [] then t else Updated(After(t, rs[..|rs| - 1]), rs[|rs| - 1])
  }

  lemma {:induction false} AfterIsValid(t: Table, rs: seq<Request>)
    requires ValidTable(t)
    ensures ValidTable(After(t, rs))
  {
    if rs != [] { AfterIsValid(t, rs[..|rs| - 1]); }
  }

  ghost function KindBefore(start: Kind, replies: seq<Reply>, k: nat): Kind
    requires k <= |replies|
  {
    if k == 0 then start else replies[k - 1].kind
  }

  /** Every reply answers its request on the table that all earlier requests have left. */
  ghost predicate Serial(t: Table, start: Kind, rs: seq<Request>, replies: seq<Reply>) {
    && |rs| == |replies|
    && forall k {:trigger rs[..k]} ::
         0 <= k < |rs| ==> Answers(After(t, rs[..k]), rs[k], KindBefore(start, replies, k), replies[k])
  }

  lemma {:induction false} SerialExtends(t: Table, start: Kind, rs: seq<Request>, replies: seq<Reply>, r: Request,
                                         reply: Reply)
    requires Serial(t, start, rs, replies)
    requires Answers(After(t, rs), r, KindBefore(start, replies, |replies|), reply)
    ensures Serial(t, start, rs + [r], replies + [reply]) && After(t, rs + [r]) == Updated(After(t, rs), r)
  {
    var rs', replies' := rs + [r], replies + [reply];
    assert rs'[..|rs|] == rs;
    forall k | 0 <= k < |rs'|
      ensures Answers(After(t, rs'[..k]), rs'[k], KindBefore(start, replies', k), replies'[k])
    {
      assert k < |rs| ==> rs'[..k] == rs[..k];
    }
  }

  // ---------------------------------------------------------------- what a write leaves

  function Row(t: Table, id: nat): Option<Fields> {
    if id in t.rows then Some(t.rows[id]) else None
  }

  /** Posts that add a record; each is given the next number. */
  function Inserts(rs: seq<Request>): nat {
    if rs == [] then 0
    else
      var last := rs[|rs| - 1];
      Inserts(rs[..|rs| - 1]) + if last.Post? && last.id == 0 && last.fields.Some? then 1 else 0
  }

  lemma {:induction false} NextIdIs(t: Table, rs: seq<Request>)
    ensures After(t, rs).nextId == t.nextId + Inserts(rs)
  {
    if rs != [] { NextIdIs(t, rs[..|rs| - 1]); }
  }

  /** Request `j` was a post that succeeded, to `id` or without an identifier and given `id`. */
  predicate Sets(first: nat, rs: seq<Request>, replies: seq<Reply>, j: nat, id: nat)
    requires j < |rs| == |replies|
  {
    && rs[j].Post? && rs[j].fields.Some? && replies[j].kind == Ok
    && id == if rs[j].id == 0 then first + Inserts(rs[..j]) else rs[j].id
  }

  /** What one request does to one record, read off the reply. */
  lemma {:induction false} OneRequest(t: Table, r: Request, before: Kind, reply: Reply, id: nat)
    requires ValidTable(t) && Answers(t, r, before, reply) && id > 0
    ensures Row(Updated(t, r), id) ==
            if r.Post? && r.fields.Some? && reply.kind == Ok
                && id == (if r.id == 0 then t.nextId else r.id) then r.fields
            else if r == Delete(id) then None
            else Row(t, id)
  {
  }

  /** The fields of a record after `k` requests, over requests and replies alone: those of the latest successful post to
      it, none after a deletion, and those of the first table before either. */
  function Stored(t: Table, rs: seq<Request>, replies: seq<Reply>, k: nat, id: nat): Option<Fields>
    requires k <= |rs| == |replies|
  {
    if k == 0 then Row(t, id)
    else if Sets(t.nextId, rs, replies, k - 1, id) then rs[k - 1].fields
    else if rs[k - 1] == Delete(id) then None
    else Stored(t, rs, replies, k - 1, id)
  }

  lemma {:induction false} StoredIs(t: Table, start: Kind, rs: seq<Request>, replies: seq<Reply>, k: nat, id: nat)
    requires ValidTable(t) && Serial(t, start, rs, replies) && k <= |rs| && id > 0
    ensures Row(After(t, rs[..k]), id) == Stored(t, rs, replies, k, id)
  {
    if k == 0 {
      assert rs[..0] == [];
    } else {
      var j := k - 1;
      StoredIs(t, start, rs, replies, j, id);
      AfterIsValid(t, rs[..j]);
      NextIdIs(t, rs[..j]);
      assert rs[..k][..j] == rs[..j];
      OneRequest(After(t, rs[..j]), rs[j], KindBefore(start, replies, j), replies[j], id);
    }
  }

  /** No request from `j` on, before `k`, writes the record. */
  predicate Quiet(first: nat, rs: seq<Request>, replies: seq<Reply>, j: nat, k: nat, id: nat)
    requires k <= |rs| == |replies|
  {
    forall i {:trigger Sets(first, rs, replies, i, id)} ::
      j <= i < k ==> !Sets(first, rs, replies, i, id) && rs[i] != Delete(id)
  }

  lemma {:induction false} StoredStays(t: Table, rs: seq<Request>, replies: seq<Reply>, j: nat, k: nat, id: nat)
    requires j <= k <= |rs| == |replies| && Quiet(t.nextId, rs, replies, j, k, id)
    ensures Stored(t, rs, replies, k, id) == Stored(t, rs, replies, j, id)
    decreases k
  {
    if j < k {
      assert !Sets(t.nextId, rs, replies, k - 1, id);
      StoredStays(t, rs, replies, j, k - 1, id);
    }
  }

  /** A request for a record is answered with the fields of the latest successful post to it, if no deletion followed.
      */
  lemma {:induction false} GetAfterPost(t: Table, start: Kind, rs: seq<Request>, replies: seq<Reply>, j: nat, k: nat,
                                        id: nat)
    requires ValidTable(t) && Serial(t, start, rs, replies) && j < k < |rs| && id > 0 && rs[k] == Get(id)
    requires Sets(t.nextId, rs, replies, j, id) && Quiet(t.nextId, rs, replies, j + 1, k, id)
    ensures replies[k] == Reply(Ok, [Record(id, rs[j].fields.value)])
  {
    StoredIs(t, start, rs, replies, k, id);
    StoredStays(t, rs, replies, j + 1, k, id);
    ReplyIs(t, start, rs, replies, k);
  }

  /** ... with "not found" after a deletion that no successful post has followed ... */
  lemma {:induction false} GetAfterDelete(t: Table, start: Kind, rs: seq<Request>, replies: seq<Reply>, j: nat,
                                          k: nat, id: nat)
    requires ValidTable(t) && Serial(t, start, rs, replies) && j < k < |rs| && id > 0 && rs[k] == Get(id)
    requires rs[j] == Delete(id) && Quiet(t.nextId, rs, replies, j + 1, k, id)
    ensures replies[k] == Reply(NotFound, [])
  {
    StoredIs(t, start, rs, replies, k, id);
    StoredStays(t, rs, replies, j + 1, k, id);
    ReplyIs(t, start, rs, replies, k);
  }

  /** ... and from the first table if it has not been written at all. */
  lemma {:induction false} GetUnwritten(t: Table, start: Kind, rs: seq<Request>, replies: seq<Reply>, k: nat, id: nat)
    requires ValidTable(t) && Serial(t, start, rs, replies) && k < |rs| && id > 0 && rs[k] == Get(id)
    requires Quiet(t.nextId, rs, replies, 0, k, id)
    ensures replies[k] == if id in t.rows then Reply(Ok, [Record(id, t.rows[id])]) else Reply(NotFound, [])
  {
    StoredIs(t, start, rs, replies, k, id);
    StoredStays(t, rs, replies, 0, k, id);
    ReplyIs(t, start, rs, replies, k);
  }

  lemma {:induction false} ReplyIs(t: Table, start: Kind, rs: seq<Request>, replies: seq<Reply>, k: nat)
    requires Serial(t, start, rs, replies) && k < |rs|
    ensures Answers(After(t, rs[..k]), rs[k], KindBefore(start, replies, k), replies[k])
  {
    var met := After(t, rs[..k]);
  }

  /** A request for all records is answered with exactly the stored ones, each once. */
  lemma {:induction false} GetAllListsStored(t: Table, start: Kind, rs: seq<Request>, replies: seq<Reply>, k: nat,
                                             id: nat, f: Fields)
    requires ValidTable(t) && Serial(t, start, rs, replies) && k < |rs| && rs[k] == Get(0) && id > 0
    ensures Record(id, f) in replies[k].records <==> Stored(t, rs, replies, k, id) == Some(f)
    ensures forall i, j :: 0 <= i < j < |replies[k].records| ==> replies[k].records[i].id != replies[k].records[j].id
  {
    ReplyIs(t, start, rs, replies, k);
    StoredIs(t, start, rs, replies, k, id);
  }

  /** A write succeeds if and only if it is well-formed and adds a record or meets a stored one. */
  lemma {:induction false} WritesSucceedExactly(t: Table, start: Kind, rs: seq<Request>, replies: seq<Reply>, k: nat)
    requires ValidTable(t) && Serial(t, start, rs, replies) && k < |rs|
    ensures rs[k].Invalid? ==> replies[k] == Reply(BadRequest, [])
    ensures rs[k].Post? || rs[k].Delete? ==>
            var id := rs[k].id;
            && replies[k].records == []
            && (replies[k].kind == BadRequest <==> if rs[k].Post? then rs[k].fields == None else id == 0)
            && (replies[k].kind == Ok <==>
                  && (rs[k].Post? ==> rs[k].fields.Some?)
                  && ((rs[k].Post? && id == 0) || (id > 0 && Stored(t, rs, replies, k, id).Some?)))
  {
    ReplyIs(t, start, rs, replies, k);
    if (rs[k].Post? || rs[k].Delete?) && rs[k].id > 0 { StoredIs(t, start, rs, replies, k, rs[k].id); }
  }

  // ---------------------------------------------------------------- the kind of the reply to a request for all records

  /** The kind of the reply to a request other than one for all records. */
  function KindOf(t: Table, r: Request): Kind {
    match r
    case Get(id) => if id in t.rows then Ok else NotFound
    case Post(id, None) => BadRequest
    case Post(id, Some(_)) => if id == 0 || id in t.rows then Ok else NotFound
    case Delete(id) => if id == 0 then BadRequest else if id in t.rows then Ok else NotFound
    case Invalid => BadRequest
  }

  /** The kind that the latest request other than one for all records has left, or the first one. */
  function KindLeft(t: Table, start: Kind, rs: seq<Request>): Kind {
    if rs == [] then start
    else
      var head, last := rs[..|rs| - 1], rs[|rs| - 1];
      if last == Get(0) then KindLeft(t, start, head) else KindOf(After(t, head), last)
  }

  lemma {:induction false} AnswerHasKind(t: Table, start: Kind, rs: seq<Request>, replies: seq<Reply>, k: nat)
    requires Serial(t, start, rs, replies) && k < |rs|
    ensures replies[k].kind == if rs[k] == Get(0) then KindBefore(start, replies, k)
            else KindOf(After(t, rs[..k]), rs[k])
  {
    assert Answers(After(t, rs[..k]), rs[k], KindBefore(start, replies, k), replies[k]);
  }

  lemma {:induction false} KindLeftStep(t: Table, start: Kind, rs: seq<Request>, k: nat)
    requires k < |rs|
    ensures KindLeft(t, start, rs[..k + 1]) ==
            if rs[k] == Get(0) then KindLeft(t, start, rs[..k]) else KindOf(After(t, rs[..k]), rs[k])
  {
    assert rs[..k + 1][..k] == rs[..k];
  }

  /** What the service sends depends on the requests and the table alone. */
  lemma {:induction false} KindBeforeIs(t: Table, start: Kind, rs: seq<Request>, replies: seq<Reply>, k: nat)
    requires Serial(t, start, rs, replies) && k <= |rs|
    ensures KindBefore(start, replies, k) == KindLeft(t, start, rs[..k])
  {
    if k > 0 {
      AnswerHasKind(t, start, rs, replies, k - 1);
      KindLeftStep(t, start, rs, k - 1);
      KindBeforeIs(t, start, rs, replies, k - 1);
    }
  }

  /** The latest of some requests that is not for all records is at `j`. */
  predicate IsLatest(rs: seq<Request>, j: nat) {
    j < |rs| && rs[j] != Get(0) && forall i :: j < i < |rs| ==> rs[i] == Get(0)
  }

  /** A request succeeds on a table. */
  predicate Succeeds(t: Table, r: Request) {
    match r
    case Get(id) => id in t.rows
    case Post(id, fields) => fields.Some? && (id == 0 || id in t.rows)
    case Delete(id) => id != 0 && id in t.rows
    case Invalid => false
  }

  predicate AllForAll(rs: seq<Request>) {
    forall i :: 0 <= i < |rs| ==> rs[i] == Get(0)
  }

  /** The latest request that was not for all records succeeded on the table it met or, without such a request, the
      service started with Ok. */
  ghost predicate LeaveOk(t: Table, start: Kind, rs: seq<Request>) {
    || (exists j: nat :: IsLatest(rs, j) && Succeeds(After(t, rs[..j]), rs[j]))
    || (AllForAll(rs) && start == Ok)
  }

  lemma {:induction false} KindLeftIsOkExactly(t: Table, start: Kind, rs: seq<Request>)
    ensures KindLeft(t, start, rs) == Ok <==> LeaveOk(t, start, rs)
  {
    if rs != [] {
      var head, last := rs[..|rs| - 1], |rs| - 1;
      if rs[last] == Get(0) {
        KindLeftIsOkExactly(t, start, head);
        LatestBefore(t, start, rs);
      } else {
        assert IsLatest(rs, last);
        assert forall j: nat :: IsLatest(rs, j) ==> j == last;
      }
    }
  }

  /** A request for all records leaves things as they are. */
  lemma {:induction false} LatestBefore(t: Table, start: Kind, rs: seq<Request>)
    requires rs != [] && rs[|rs| - 1] == Get(0)
    ensures LeaveOk(t, start, rs) <==> LeaveOk(t, start, rs[..|rs| - 1])
  {
    var head := rs[..|rs| - 1];
    assert AllForAll(rs) <==> AllForAll(head) by { assert rs == head + [Get(0)]; }
    forall j: nat ensures IsLatest(rs, j) <==> IsLatest(head, j) {
      assert j < |head| ==> head[j] == rs[j];
      assert forall i :: 0 <= i < |head| ==> head[i] == rs[i];
    }
    assert forall j: nat :: j <= |head| ==> head[..j] == rs[..j];
  }

  /** A request for all records is answered with Ok if and only if the requests before it leave Ok behind. */
  lemma {:induction false} GetAllIsOkExactly(t: Table, start: Kind, rs: seq<Request>, replies: seq<Reply>, k: nat)
    requires Serial(t, start, rs, replies) && k < |rs| && rs[k] == Get(0)
    ensures replies[k].kind == Ok <==> LeaveOk(t, start, rs[..k])
  {
    AnswerHasKind(t, start, rs, replies, k);
    KindBeforeIs(t, start, rs, replies, k);
    KindLeftIsOkExactly(t, start, rs[..k]);
  }

  /** ... so that the whole table is served as "not found" after a request for any record that is missing from it. */
  lemma {:induction false} GetAllAfterMiss(t: Table, start: Kind, id: nat, replies: seq<Reply>)
    requires ValidTable(t) && id !in t.rows && id != 0 && Serial(t, start, [Get(id), Get(0)], replies)
    ensures replies[1].kind == NotFound && IsListing(replies[1].records, t.rows)
  {
    var rs := [Get(id), Get(0)];
    AnswerHasKind(t, start, rs, replies, 0);
    AnswerHasKind(t, start, rs, replies, 1);
    assert rs[..1] == [Get(id)] && rs[..0] == [] && rs[..1][..0] == [];
    assert Answers(After(t, rs[..1]), rs[1], KindBefore(start, replies, 1), replies[1]);
  }
}

/** The cache of the whole table (satellite-soft-labs/include/Cache.hpp). */
module Caches {
  import opened Common
  import opened SerialDatabase

  /** The map form: the latest value of each key. */
  function ByKey(keys: seq<nat>, values: seq<Record>): map<nat, Record>
    requires |keys| == |values|
  {
    if keys == [] then map[]
    else
      var last := |keys| - 1;
      ByKey(keys[..last], values[..last])[keys[last] := values[last]]
  }

  function Ids(s: seq<Record>): (ids: seq<nat>)
    ensures |ids| == |s| && forall i :: 0 <= i < |s| ==> ids[i] == s[i].id
  {
    seq(|s|, i requires 0 <= i < |s| => s[i].id)
  }

  class Cache {
    var isValid: bool
    var values: seq<Record>
    var byKey: map<nat, Record>
    ghost var keys: seq<nat>     // the key under which each value was added

    /** Both forms hold the same values. */
    ghost predicate Paired()
      reads this
    {
      |keys| == |values| && byKey == ByKey(keys, values)
    }

    /** ... and an invalid cache holds none. */
    ghost predicate Valid()
      reads this
    {
      Paired() && (!isValid ==> values == [])
    }

    constructor ()
      ensures Valid() && !isValid
    {
      isValid, values, byKey, keys := false, [], map[], [];
    }

    method SetInvalid(invalid: bool)
      requires Paired()
      modifies this
      ensures Valid() && isValid == !invalid
      ensures values == (if invalid then [] else old(values)) && keys == if invalid then [] else old(keys)
    {
      isValid := !invalid;
      if invalid { values, byKey, keys := [], map[], []; }
    }

    /** Both forms take the value; a key that is used again finds its latest value. */
    method AddValue(key: nat, value: Record)
      requires Paired()
      modifies this
      ensures Paired() && isValid == old(isValid)
      ensures values == old(values) + [value] && keys == old(keys) + [key] && byKey == old(byKey)[key := value]
    {
      values := values + [value];
      byKey := byKey[key := value];
      keys := keys + [key];
      assert values[..|values| - 1] == old(values) && keys[..|keys| - 1] == old(keys);
    }

    method FindValue(key: nat) returns (found: bool, value: Option<Record>)
      ensures found <==> isValid && key in byKey
      ensures value == if found then Some(byKey[key]) else None
    {
      if !isValid || key !in byKey { return false, None; }
      return true, Some(byKey[key]);
    }
  }

  /** The map form of a listing, under the identifiers of its records, finds exactly the rows. */
  lemma {:induction false} ListingFinds(s: seq<Record>, rows: map<nat, Fields>, id: nat)
    requires IsListing(s, rows)
    ensures id in ByKey(Ids(s), s) <==> id in rows
    ensures id in rows ==> ByKey(Ids(s), s)[id] == Record(id, rows[id])
  {
    ByKeyFinds(s, id);
    if id in rows {
      var i :| 0 <= i < |s| && s[i] == Record(id, rows[id]);
    }
  }

  lemma {:induction false} ByKeyFinds(s: seq<Record>, id: nat)
    requires forall i, j :: 0 <= i < j < |s| ==> s[i].id != s[j].id
    ensures id in ByKey(Ids(s), s) <==> exists i :: 0 <= i < |s| && s[i].id == id
    ensures id in ByKey(Ids(s), s) ==> ByKey(Ids(s), s)[id] in s && ByKey(Ids(s), s)[id].id == id
  {
    if s != [] {
      ByKeyFinds(s[..|s| - 1], id);
      assert Ids(s)[..|s| - 1] == Ids(s[..|s| - 1]);
    }
  }
}

/** The queues, the worker and its cache (satellite-soft-labs/src/Database.cpp). Requests are queued by any number
    of threads under a mutex; the worker takes one under the mutex and executes it outside of it. */
module DatabaseService {
  import opened Common
  import opened SerialDatabase
  import opened Caches

  type Connection = nat

  datatype Job = Job(request: Request, connection: Connection)

  /** A step of some thread: a client's thread queues a request, or the worker takes or executes one. */
  datatype Step = Queue(job: Job) | Take | Execute

  function QueuedBy(schedule: seq<Step>): seq<Job> {
    if schedule == [] then []
    else QueuedBy(schedule[..|schedule| - 1]) + JobOf(schedule[|schedule| - 1])
  }

  function JobOf(step: Step): seq<Job> {
    if step.Queue? then [step.job] else []
  }

  /** How far the worker is: jobs queued, whether one is taken, and jobs executed. */
  datatype Pace = Pace(queued: nat, taken: bool, done: nat)

  function Onward(p: Pace, step: Step): Pace {
    match step
    case Queue(_) => p.(queued := p.queued + 1)
    case Take => if p.queued > p.done then p.(taken := true) else p
    case Execute => if p.taken then p.(taken := false, done := p.done + 1) else p
  }

  function PaceOf(schedule: seq<Step>): Pace {
    if schedule == [] then Pace(0, false, 0)
    else Onward(PaceOf(schedule[..|schedule| - 1]), schedule[|schedule| - 1])
  }

  function Requests(jobs: seq<Job>): (rs: seq<Request>)
    ensures |rs| == |jobs| && forall i :: 0 <= i < |jobs| ==> rs[i] == jobs[i].request
  {
    seq(|jobs|, i requires 0 <= i < |jobs| => jobs[i].request)
  }

  function Pending(rs: seq<Request>, cs: seq<Connection>): seq<Job>
    requires |rs| == |cs|
  {
    if rs == [] then [] else [Job(rs[0], cs[0])] + Pending(rs[1..], cs[1..])
  }

  function Taken(current: Option<Job>): seq<Job> {
    if current.Some? then [current.value] else []
  }

  lemma {:induction false} PendingHasAll(rs: seq<Request>, cs: seq<Connection>)
    requires |rs| == |cs|
    ensures |Pending(rs, cs)| == |rs|
  {
    if rs != [] { PendingHasAll(rs[1..], cs[1..]); }
  }

  lemma {:induction false} PendingGrows(rs: seq<Request>, cs: seq<Connection>, job: Job)
    requires |rs| == |cs|
    ensures Pending(rs + [job.request], cs + [job.connection]) == Pending(rs, cs) + [job]
  {
    var rs', cs' := rs + [job.request], cs + [job.connection];
    if rs == [] {
      assert rs'[1..] == [];
    } else {
      assert rs'[1..] == rs[1..] + [job.request] && cs'[1..] == cs[1..] + [job.connection];
      PendingGrows(rs[1..], cs[1..], job);
    }
  }

  lemma {:induction false} QueueGrows(done: seq<Job>, current: Option<Job>, rs: seq<Request>, cs: seq<Connection>,
                                      job: Job)
    requires |rs| == |cs|
    ensures done + (Taken(current) + Pending(rs + [job.request], cs + [job.connection])) ==
            done + (Taken(current) + Pending(rs, cs)) + [job]
  {
    PendingGrows(rs, cs, job);
    Join(Taken(current), Pending(rs, cs), [job]);
    Join(done, Taken(current) + Pending(rs, cs), [job]);
  }

  lemma {:induction false} HeadIsTaken(rs: seq<Request>, cs: seq<Connection>)
    requires |rs| == |cs| > 0
    ensures Taken(None) + Pending(rs, cs) == Taken(Some(Job(rs[0], cs[0]))) + Pending(rs[1..], cs[1..])
  {
  }

  /** Each reply went to its own connection once, and every reply is the one of a serial execution. */
  ghost predicate InOrder(t: Table, k: Kind, done: seq<Job>, sentTo: seq<Connection>, sent: seq<Reply>, kind: Kind,
                          table: Table) {
    && |sentTo| == |done| && (forall i :: 0 <= i < |done| ==> sentTo[i] == done[i].connection)
    && Serial(t, k, Requests(done), sent)
    && kind == KindBefore(k, sent, |sent|)
    && ValidTable(t) && table == After(t, Requests(done))
  }

  lemma {:induction false} InOrderExtends(t: Table, k: Kind, done: seq<Job>, sentTo: seq<Connection>, sent: seq<Reply>,
                                          kind: Kind, table: Table, job: Job, reply: Reply)
    requires InOrder(t, k, done, sentTo, sent, kind, table) && Answers(table, job.request, kind, reply)
    ensures InOrder(t, k, done + [job], sentTo + [job.connection], sent + [reply], reply.kind,
                    Updated(table, job.request))
  {
    SerialExtends(t, k, Requests(done), sent, job.request, reply);
    assert Requests(done + [job]) == Requests(done) + [job.request];
  }

  class Database {
    var requestQueue: seq<Request>
    var connectionQueue: seq<Connection>
    var current: Option<Job>                 // what the worker has taken and not executed yet
    var table: Table                         // the database behind the connection
    const cache: Cache
    var kind: Kind                           // of the reply object that is used again and again
    var records: seq<Record>
    var sentTo: seq<Connection>              // replies handed to the thread pool, and where to
    var sent: seq<Reply>

    const firstTable: Table                  // the table and the reply kind at the start
    const firstKind: Kind
    ghost var queued: seq<Job>               // every job ever queued
    ghost var done: seq<Job>                 // every job executed

    ghost predicate CacheIsTable()
      reads this`table, cache
    {
      cache.Valid() && (cache.isValid ==> cache.keys == Ids(cache.values) && IsListing(cache.values, table.rows))
    }

    /** The queues stay paired, and nothing queued is lost, duplicated or reordered. */
    ghost predicate Paired()
      reads this`requestQueue, this`connectionQueue, this`current, this`queued, this`done
    {
      && |requestQueue| == |connectionQueue|
      && queued == done + (Taken(current) + Pending(requestQueue, connectionQueue))
    }

    ghost function CurrentPace(): Pace
      reads this
    {
      Pace(|queued|, current.Some?, |done|)
    }

    ghost predicate Served()
      reads this`done, this`sentTo, this`sent, this`kind, this`table, cache
    {
      InOrder(firstTable, firstKind, done, sentTo, sent, kind, table) && CacheIsTable()
    }

    ghost predicate Valid()
      reads this, cache
    {
      Paired() && Served()
    }

    /** `Connect`: the worker starts with empty queues and an invalid cache. */
    constructor (t: Table, k: Kind)
      requires ValidTable(t)
      ensures Valid() && queued == done == [] && table == firstTable == t && fresh(cache)
    {
      requestQueue, connectionQueue, current := [], [], None;
      table, firstTable, kind, firstKind := t, t, k, k;
      records, sentTo, sent, queued, done := [], [], [], [], [];
      cache := new Cache();
      new;
      assert Requests(done) == [];
    }

    method QueueRequest(job: Job)
      requires Valid()
      modifies this`requestQueue, this`connectionQueue, this`queued
      ensures Valid() && queued == old(queued) + [job]
    {
      QueueGrows(done, current, requestQueue, connectionQueue, job);
      requestQueue := requestQueue + [job.request];
      connectionQueue := connectionQueue + [job.connection];
      queued := queued + [job];
      assert Served() == old(Served());
    }

    method TakeRequest()
      requires Valid()
      modifies this`requestQueue, this`connectionQueue, this`current
      ensures Valid() && queued == old(queued)
      ensures old(current).Some? || old(requestQueue) == [] ==> current == old(current)
      ensures old(current) == None && old(requestQueue) != [] ==> current == Some(queued[|done|])
    {
      if current == None && requestQueue != [] {
        HeadIsTaken(requestQueue, connectionQueue);
        current := Some(Job(requestQueue[0], connectionQueue[0]));
        requestQueue, connectionQueue := requestQueue[1..], connectionQueue[1..];
        assert Served() == old(Served());
      }
    }

    /** `SELECT`: all rows, in whatever order the database yields them. */
    method Select() returns (rows: seq<Record>)
      ensures IsListing(rows, table.rows)
    {
      rows := [];
      var left := table.rows.Keys;
      while left != {}
        invariant left <= table.rows.Keys
        invariant forall i :: 0 <= i < |rows| ==> rows[i].id in table.rows && rows[i].id !in left
        invariant forall i :: 0 <= i < |rows| ==> rows[i].fields == table.rows[rows[i].id]
        invariant forall i, j :: 0 <= i < j < |rows| ==> rows[i].id != rows[j].id
        invariant forall id :: id in table.rows && id !in left ==> Record(id, table.rows[id]) in rows
        decreases left
      {
        var id :| id in left;
        left := left - {id};
        rows := rows + [Record(id, table.rows[id])];
      }
    }

    method RenewCache()
      requires cache.Valid() && !cache.isValid
      modifies cache
      ensures CacheIsTable() && cache.isValid
    {
      var rows := Select();
      for i := 0 to |rows|
        invariant cache.Paired() && cache.values == rows[..i] && cache.keys == Ids(rows[..i])
      {
        cache.AddValue(rows[i].id, rows[i]);
        assert Ids(rows[..i + 1]) == Ids(rows[..i]) + [rows[i].id];
      }
      assert rows[..|rows|] == rows;
      cache.SetInvalid(false);
    }

    method DoGetRequest(id: nat)
      requires CacheIsTable()
      modifies this`kind, this`records, cache
      ensures CacheIsTable()
      ensures Answers(table, Get(id), old(kind), Reply(kind, records))
    {
      if !cache.isValid { RenewCache(); }
      if id > 0 {
        var found, element := cache.FindValue(id);
        records := [];
        ListingFinds(cache.values, table.rows, id);
        if found {
          records := [element.value];
          kind := Ok;
        } else {
          kind := NotFound;
        }
      } else {
        records := cache.values;
      }
    }

    method DoPostRequest(id: nat, fields: Option<Fields>)
      requires CacheIsTable() && ValidTable(table)
      modifies this`kind, this`records, this`table, cache
      ensures CacheIsTable() && table == Updated(old(table), Post(id, fields))
      ensures Answers(old(table), Post(id, fields), old(kind), Reply(kind, records))
    {
      records := [];
      if fields == None {
        kind := BadRequest;
        return;
      }
      cache.SetInvalid(true);
      var affected := if id == 0 || id in table.rows then 1 else 0;
      table := Updated(table, Post(id, fields));
      kind := if affected > 0 then Ok else NotFound;
    }

    method DoDeleteRequest(id: nat)
      requires CacheIsTable() && ValidTable(table)
      modifies this`kind, this`records, this`table, cache
      ensures CacheIsTable() && table == Updated(old(table), Delete(id))
      ensures Answers(old(table), Delete(id), old(kind), Reply(kind, records))
    {
      records := [];
      if id == 0 {
        kind := BadRequest;
        assert table.rows - {id} == table.rows;
        return;
      }
      kind := Ok;
      cache.SetInvalid(true);
      var affected := if id in table.rows then 1 else 0;
      table := Updated(table, Delete(id));
      kind := if affected > 0 then Ok else NotFound;
    }

    /** The `switch` of the worker's loop. */
    method Answer(request: Request)
      requires CacheIsTable() && ValidTable(table)
      modifies this`kind, this`records, this`table, cache
      ensures CacheIsTable() && table == Updated(old(table), request)
      ensures Answers(old(table), request, old(kind), Reply(kind, records))
    {
      records := [];
      match request
      case Get(id) => DoGetRequest(id);
      case Post(id, fields) => DoPostRequest(id, fields);
      case Delete(id) => DoDeleteRequest(id);
      case Invalid => kind := BadRequest;
    }

    /** Execute `job` and hand its reply to the thread pool. */
    method Serve(job: Job)
      requires Served()
      modifies this`kind, this`records, this`table, this`sent, this`sentTo, this`done, cache
      ensures Served() && done == old(done) + [job]
    {
      AfterIsValid(firstTable, Requests(done));
      ghost var table0, kind0 := table, kind;
      Answer(job.request);
      InOrderExtends(firstTable, firstKind, done, sentTo, sent, kind0, table0, job, Reply(kind, records));
      sent := sent + [Reply(kind, records)];
      sentTo := sentTo + [job.connection];
      done := done + [job];
    }

    /** The worker executes what it has taken. */
    method ExecuteRequest()
      requires Valid()
      modifies this, cache
      ensures Valid() && queued == old(queued) && done == old(done) + Taken(old(current)) && current == None
    {
      ghost var pending := Pending(requestQueue, connectionQueue);
      if current.Some? {
        Serve(current.value);
        Join(old(done), Taken(current), pending);
        current := None;
      }
      assert Served() && [] + pending == pending;
    }

    /** Every interleaving of queueing threads with the worker: what has been executed is a prefix of what has been
        queued, in that order, each reply went to the connection of its own request, and the replies are those of
        a serial execution. */
    method Run(schedule: seq<Step>)
      requires Valid()
      modifies this, cache
      ensures Valid() && queued == old(queued) + QueuedBy(schedule)
      ensures old(CurrentPace()) == Pace(0, false, 0) ==> CurrentPace() == PaceOf(schedule)
      ensures done == queued[..|done|] && |sentTo| == |sent| == |done|
      ensures forall i :: 0 <= i < |done| ==> sentTo[i] == queued[i].connection
      ensures Serial(firstTable, firstKind, Requests(queued[..|done|]), sent)
    {
      for i := 0 to |schedule|
        invariant Valid() && queued == old(queued) + QueuedBy(schedule[..i])
        invariant old(CurrentPace()) == Pace(0, false, 0) ==> CurrentPace() == PaceOf(schedule[..i])
      {
        assert schedule[..i + 1][..i] == schedule[..i];
        Join(old(queued), QueuedBy(schedule[..i]), JobOf(schedule[i]));
        DoStep(schedule[i]);
      }
      assert schedule[..|schedule|] == schedule;
    }

    method DoStep(step: Step)
      requires Valid()
      modifies this, cache
      ensures Valid() && queued == old(queued) + JobOf(step)
      ensures CurrentPace() == Onward(old(CurrentPace()), step)
      ensures step.Execute? ==> done == old(done) + Taken(old(current))
    {
      assert queued + [] == queued;
      PendingHasAll(requestQueue, connectionQueue);
      match step
      case Queue(job) => QueueRequest(job);
      case Take => TakeRequest();
      case Execute => ExecuteRequest();
    }
  }
}
