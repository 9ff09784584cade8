/** The economic buffer policy (supertel/lib/containers.c): when a buffer is reallocated, and what that costs
    over a whole history of resizes. */
module EconomicBuffers {

  /** The allocator grants no block larger than this, so that twice a granted size fits a 64-bit size_t. */
  const ALLOCATION_LIMIT: nat := 0x7fff_ffff_ffff_ffff

  datatype Sizes = Sizes(used: nat, held: nat)

  /** A request for a new size, and whether the allocator grants it. */
  datatype Request = Request(size: nat, granted: bool)

  predicate Moves(s: Sizes, newsize: nat) {
    newsize < s.held / 4 || newsize > s.held
  }

  /** The size that is allocated when the buffer has to move. */
  function Target(s: Sizes, newsize: nat): nat {
    if newsize < s.held / 4 then s.held / 2
    else if newsize < 2 * s.held then 2 * s.held else newsize
  }

  predicate Succeeds(s: Sizes, r: Request) {
    Moves(s, r.size) ==> r.granted && Target(s, r.size) <= ALLOCATION_LIMIT
  }

  function Resized(s: Sizes, r: Request): Sizes {
    if !Succeeds(s, r) then s
    else Sizes(r.size, if Moves(s, r.size) then Target(s, r.size) else s.held)
  }

  function Min(a: nat, b: nat): nat { if a < b then a else b }
  function Distance(a: int, b: int): nat { if a < b then b - a else a - b }

  /** Bytes a resize has to copy: none unless the block moves. */
  function Copied(s: Sizes, r: Request): nat {
    if Moves(s, r.size) && Succeeds(s, r) then Min(s.held, Target(s, r.size)) else 0
  }

  /** The sizes after a history of requests on an empty buffer, latest last. */
  function After(history: seq<Request>): Sizes {
    if history == [] then Sizes(0, 0) else Resized(After(history[..|history| - 1]), history[|history| - 1])
  }

  function TotalCopied(history: seq<Request>): nat {
    if history == [] then 0
    else TotalCopied(history[..|history| - 1]) + Copied(After(history[..|history| - 1]), history[|history| - 1])
  }

  function TotalChange(history: seq<Request>): nat {
    if history == [] then 0
    else TotalChange(history[..|history| - 1]) + Distance(After(history[..|history| - 1]).used, After(history).used)
  }

  function Potential(s: Sizes): nat { Distance(2 * s.used, s.held) }

  /** One request: what is copied is paid for by the change of size and the potential saved so far. */
  lemma {:induction false} RequestIsPaidFor(s: Sizes, r: Request)
    requires s.used <= s.held
    ensures var t := Resized(s, r);
            t.used <= t.held && Copied(s, r) + Potential(t) <= Potential(s) + 2 * Distance(s.used, t.used)
  {
  }

  lemma {:induction false} HistoryIsPaidFor(history: seq<Request>)
    ensures var s := After(history);
            s.used <= s.held && TotalCopied(history) + Potential(s) <= 2 * TotalChange(history)
  {
    if history != [] {
      var head := history[..|history| - 1];
      HistoryIsPaidFor(head);
      RequestIsPaidFor(After(head), history[|history| - 1]);
    }
  }

  lemma {:induction false} AfterOneMore(history: seq<Request>, r: Request)
    ensures After(history + [r]) == Resized(After(history), r)
    ensures TotalCopied(history + [r]) == TotalCopied(history) + Copied(After(history), r)
    ensures TotalChange(history + [r]) ==
            TotalChange(history) + Distance(After(history).used, After(history + [r]).used)
  {
    assert (history + [r])[..|history|] == history;
  }

  /** Amortised cost: over any history of resizes, granted or refused, the bytes copied are at most twice the
      sum of the changes of the user's size, and the user's bytes always fit. */
  lemma AmortisedCost(history: seq<Request>)
    ensures TotalCopied(history) <= 2 * TotalChange(history) && After(history).used <= After(history).held
  {
    HistoryIsPaidFor(history);
  }

  /** A buffer with the economic policy. */
  class Buffer {
    var userSize: nat
    var realSize: nat
    var offset: nat
    ghost var history: seq<Request>
    ghost var moved: nat         // bytes that reallocation has moved so far
    ghost var changed: nat       // the sum of the changes of the user's size so far

    /** What has been moved is paid for by the changes of size. */
    ghost predicate Valid()
      reads this
    {
      && Sizes(userSize, realSize) == After(history) && realSize <= ALLOCATION_LIMIT && userSize <= realSize
      && moved == TotalCopied(history) && changed == TotalChange(history) && moved <= 2 * changed
    }

    constructor ()
      ensures Valid() && history == [] && moved == changed == 0
    {
      userSize, realSize, offset, history, moved, changed := 0, 0, 0, [], 0, 0;
    }

    /** `realloc_economic`, with the arithmetic of a 64-bit size_t; `granted` is what `realloc` answers. */
    method Realloc(newsize: nat, granted: bool) returns (ok: bool)
      requires Valid() && newsize < 0x1_0000_0000_0000_0000
      modifies this
      ensures Valid() && history == old(history) + [Request(newsize, granted)]
      ensures ok == Succeeds(old(After(history)), Request(newsize, granted))
      ensures ok ==> userSize == newsize
      ensures ok ==> realSize == if newsize < old(realSize) / 4 then old(realSize) / 2
                                 else if newsize <= old(realSize) then old(realSize)
                                 else if newsize < 2 * old(realSize) then 2 * old(realSize) else newsize
      ensures !ok ==> userSize == old(userSize) && realSize == old(realSize)
      ensures changed == old(changed) + if userSize > old(userSize) then userSize - old(userSize)
              else old(userSize) - userSize
      ensures moved == old(moved) + if realSize == old(realSize) then 0
                                    else if realSize < old(realSize) then realSize else old(realSize)
      ensures offset == if old(offset) > newsize then newsize else old(offset)
    {
      ghost var longer := history + [Request(newsize, granted)];
      AfterOneMore(history, Request(newsize, granted));
      AmortisedCost(longer);
      var moves, rs := NewRealSize(newsize);
      ok := !moves || (granted && rs <= ALLOCATION_LIMIT);
      if ok {
        changed := changed + if newsize > userSize then newsize - userSize else userSize - newsize;
        if moves { moved := moved + if rs < realSize then rs else realSize; }
        userSize, realSize := newsize, if moves then rs else realSize;
      }
      history := longer;
      if offset > newsize { offset := newsize; }
    }

    /** Whether the block has to move, and the size that is then asked for. */
    method NewRealSize(newsize: nat) returns (moves: bool, rs: nat)
      requires realSize <= ALLOCATION_LIMIT
      ensures moves == Moves(Sizes(userSize, realSize), newsize)
      ensures moves ==> rs == Target(Sizes(userSize, realSize), newsize)
    {
      var lesser := realSize / 2;
      var greater := realSize * 2 % 0x1_0000_0000_0000_0000;
      if newsize < realSize / 4 {
        return true, lesser;
      } else if newsize > realSize {
        return true, if newsize < greater then greater else newsize;
      } else {
        return false, realSize;
      }
    }
  }
}
