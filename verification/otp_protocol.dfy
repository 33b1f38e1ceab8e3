/** The idempotent delivery protocol of the OTP webhook, as interleaved atomic sections over a
    heap of receipts. Every critical section of `deliverOnce` is one action; the delivery itself
    and the wait on the receipt's channel happen between actions, so any action of any other
    call may come in between. */
module OtpProtocol {
  import opened Common

  /** SHA-256 of the request body. */
  type Digest = string

  datatype Request = Request(deliveryId: string, fingerprint: Digest, expiresAt: int)

  /** The (messageID, err) pair of a delivery. */
  datatype Outcome = Outcome(messageId: string, error: Option<string>)

  /** A receipt object; `closes` counts the calls of close on its channel. */
  datatype Receipt = Receipt(fingerprint: Digest, expiresAt: int, completed: bool, closes: nat, outcome: Outcome)

  /** What the mutex guards: the receipt objects, named by allocation order, and the table. */
  datatype Shared = Shared(heap: seq<Receipt>, table: map<string, nat>)

  const NO_OUTCOME := Outcome("", None)

  predicate WellFormed(s: Shared) {
    forall id :: id in s.table ==> s.table[id] < |s.heap|
  }

  /** The sweep's test: completed and not expiring after now. */
  predicate Expired(r: Receipt, now: int) {
    r.completed && r.expiresAt <= now
  }

  /** The table that one pass of the sweep leaves. */
  function Sweep(s: Shared, now: int): Shared
    requires WellFormed(s)
  {
    s.(table := map id | id in s.table && !Expired(s.heap[s.table[id]], now) :: s.table[id])
  }

  /** How the first critical section ends. */
  datatype Admission = Conflict | Join(receipt: nat) | Own(receipt: nat)

  /** The first critical section: sweep, then refuse, join the receipt found, or insert a new one. */
  function Admit(s: Shared, req: Request, now: int): (Shared, Admission)
    requires WellFormed(s)
  {
    var swept := Sweep(s, now);
    if req.deliveryId in swept.table then
      var r := swept.table[req.deliveryId];
      if swept.heap[r].fingerprint != req.fingerprint then (swept, Conflict) else (swept, Join(r))
    else
      var created := Receipt(req.fingerprint, req.expiresAt, false, 0, NO_OUTCOME);
      (Shared(swept.heap + [created], swept.table[req.deliveryId := |swept.heap|]), Own(|swept.heap|))
  }

  /** The owner's second critical section: record the outcome and close the channel. */
  function Settle(s: Shared, r: nat, o: Outcome): Shared
    requires r < |s.heap|
  {
    s.(heap := s.heap[r := s.heap[r].(completed := true, closes := s.heap[r].closes + 1, outcome := o)])
  }

  /** The receipt of an id that a request arriving at `now` has to respect. */
  predicate Live(s: Shared, id: string, now: int)
    requires WellFormed(s)
  {
    id in s.table && !Expired(s.heap[s.table[id]], now)
  }

  // ---- The interleaved machine ------------------------------------------------------------

  datatype Reply = Refused | Delivered(receipt: nat, outcome: Outcome) | Replayed(receipt: nat,
      outcome: Outcome) | Cancelled

  datatype Call = Delivering(req: Request, receipt: nat) | Waiting(req: Request, receipt: nat) | Returned(req: Request,
      reply: Reply)

  /** History of one receipt: who owns it and at which steps it was created, completed and swept. */
  datatype Trace = Trace(id: string, owner: nat, enteredAt: int, started: nat,
                         finished: Option<nat>, swept: Option<nat>, sweptAt: int)

  datatype State = State(shared: Shared, calls: map<nat, Call>, traces: seq<Trace>, step: nat)

  /** One atomic section of one call. `now` is the clock value that call read before locking, so
      successive values need not be ordered. */
  datatype Action =
    | Enter(call: nat, req: Request, now: int)
    | Complete(call: nat, outcome: Outcome)
    | Wake(call: nat)
    | Cancel(call: nat)

  const INITIAL := State(Shared([], map[]), map[], [], 0)

  function MarkSwept(s: State, now: int): seq<Trace>
    requires WellFormed(s.shared) && |s.traces| == |s.shared.heap|
  {
    var kept := Sweep(s.shared, now).table;
    seq(|s.traces|, r requires 0 <= r < |s.traces| =>
      var t := s.traces[r];
      if t.swept.None? && t.id in s.shared.table && t.id !in kept then t.(swept := Some(s.step), sweptAt := now) else t)
  }

  function EnterStep(s: State, a: Action): State
    requires a.Enter? && WellFormed(s.shared) && |s.traces| == |s.shared.heap|
  {
    var (shared, admission) := Admit(s.shared, a.req, a.now);
    var traces := MarkSwept(s, a.now);
    match admission
    case Conflict => State(shared, s.calls[a.call := Returned(a.req, Refused)], traces, s.step + 1)
    case Join(r) => State(shared, s.calls[a.call := Waiting(a.req, r)], traces, s.step + 1)
    case Own(r) =>
      State(shared, s.calls[a.call := Delivering(a.req, r)],
            traces + [Trace(a.req.deliveryId, a.call, a.now, s.step, None, None, 0)], s.step + 1)
  }

  predicate Enabled(s: State, a: Action) {
    && WellFormed(s.shared) && |s.traces| == |s.shared.heap|
    && match a
       case Enter(c, _, _) => c !in s.calls
       case Complete(c, _) => c in s.calls && s.calls[c].Delivering? && s.calls[c].receipt < |s.shared.heap|
       case Wake(c) => c in s.calls && s.calls[c].Waiting? && s.calls[c].receipt < |s.shared.heap|
                       && s.shared.heap[s.calls[c].receipt].closes > 0
       case Cancel(c) => c in s.calls && s.calls[c].Waiting?
  }

  /** One step; an action that is not enabled does nothing. */
  function Step(s: State, a: Action): State {
    if !Enabled(s, a) then s else
    match a
    case Enter(_, _, _) => EnterStep(s, a)
    case Complete(c, o) =>
      var k := s.calls[c];
      State(Settle(s.shared, k.receipt, o), s.calls[c := Returned(k.req, Delivered(k.receipt, o))],
            s.traces[k.receipt := s.traces[k.receipt].(finished := Some(s.step))], s.step + 1)
    case Wake(c) =>
      var k := s.calls[c];
      s.(calls := s.calls[c := Returned(k.req, Replayed(k.receipt, s.shared.heap[k.receipt].outcome))],
          step := s.step + 1)
    case Cancel(c) =>
      s.(calls := s.calls[c := Returned(s.calls[c].req, Cancelled)], step := s.step + 1)
  }

  function Run(actions: seq<Action>): State {
    if actions == [] then INITIAL else Step(Run(actions[..|actions| - 1]), actions[|actions| - 1])
  }

  // ---- The invariant ----------------------------------------------------------------------

  /** The table holds exactly the receipts not yet swept, each under its own id. */
  ghost predicate TableInv(s: State) {
    && WellFormed(s.shared)
    && |s.traces| == |s.shared.heap|
    && (forall id :: id in s.shared.table ==>
        s.traces[s.shared.table[id]].id == id && s.traces[s.shared.table[id]].swept.None?)
    && (forall r :: 0 <= r < |s.traces| && s.traces[r].swept.None? ==>
          s.traces[r].id in s.shared.table && s.shared.table[s.traces[r].id] == r)
  }

  /** A receipt matches its owner: in flight exactly while uncompleted, closed once on completion. */
  ghost predicate OwnerOf(s: State, r: nat)
    requires r < |s.traces| == |s.shared.heap|
  {
    var x, t := s.shared.heap[r], s.traces[r];
    && t.owner in s.calls
    && t.id == s.calls[t.owner].req.deliveryId
    && x.fingerprint == s.calls[t.owner].req.fingerprint
    && x.expiresAt == s.calls[t.owner].req.expiresAt
    && x.closes == (if x.completed then 1 else 0)
    && (x.completed <==> t.finished.Some?)
    && (if x.completed then s.calls[t.owner] == Returned(s.calls[t.owner].req, Delivered(r, x.outcome))
        else s.calls[t.owner] == Delivering(s.calls[t.owner].req, r))
  }

  ghost predicate OwnerInv(s: State)
    requires |s.traces| == |s.shared.heap|
  {
    forall r: nat :: r < |s.traces| ==> OwnerOf(s, r)
  }

  ghost predicate Matches(s: State, req: Request, r: nat)
    requires |s.traces| == |s.shared.heap|
  {
    r < |s.traces| && s.traces[r].id == req.deliveryId && s.shared.heap[r].fingerprint == req.fingerprint
  }

  ghost predicate CallFits(s: State, k: Call, c: nat)
    requires |s.traces| == |s.shared.heap|
  {
    match k
    case Delivering(_, r) => r < |s.traces| && s.traces[r].owner == c
    case Waiting(req, r) => Matches(s, req, r)
    case Returned(req, Replayed(r, o)) => Matches(s, req, r) && s.shared.heap[r].completed &&
        s.shared.heap[r].outcome == o
    case Returned(_, Delivered(r, _)) => r < |s.traces| && s.traces[r].owner == c
    case Returned(_, _) => true
  }

  ghost predicate CallInv(s: State)
    requires |s.traces| == |s.shared.heap|
  {
    forall c :: c in s.calls ==> CallFits(s, s.calls[c], c)
  }

  /** Creation, completion and sweep of a receipt come in that order; a sweep finds it expired. */
  ghost predicate TimesOf(s: State, r: nat)
    requires r < |s.traces| == |s.shared.heap|
  {
    var t := s.traces[r];
    && t.started < s.step
    && (t.finished.Some? ==> t.started < t.finished.value < s.step)
    && (t.swept.Some? ==> t.finished.Some? && t.finished.value < t.swept.value < s.step
                          && s.shared.heap[r].expiresAt <= t.sweptAt)
  }

  /** A later receipt of the same id starts no earlier than the sweep of the former. */
  ghost predicate TimeInv(s: State)
    requires |s.traces| == |s.shared.heap|
  {
    && (forall r: nat :: r < |s.traces| ==> TimesOf(s, r))
    && (forall r, q :: 0 <= r < q < |s.traces| && s.traces[r].id == s.traces[q].id ==>
          s.traces[r].swept.Some? && s.traces[r].swept.value <= s.traces[q].started)
  }

  ghost predicate Inv(s: State) {
    TableInv(s) && OwnerInv(s) && CallInv(s) && TimeInv(s)
  }

  /** The trace of receipt r after an entering call has swept at `now`. */
  ghost function Marked(s: State, r: nat, now: int): Trace
    requires r < |s.traces| == |s.shared.heap|
  {
    if s.traces[r].swept.None? && Expired(s.shared.heap[r], now)
    then s.traces[r].(swept := Some(s.step), sweptAt := now) else s.traces[r]
  }

  /** An entering call, receipt by receipt and id by id. */
  ghost predicate EnterEffect(s: State, a: Action, s': State)
    requires TableInv(s) && a.Enter?
  {
    var n := |s.traces|;
    && |s'.traces| == |s'.shared.heap|
    && n <= |s'.traces| <= n + 1
    && s'.step == s.step + 1
    && (forall r: nat :: r < n ==> s'.shared.heap[r] == s.shared.heap[r] && s'.traces[r] == Marked(s, r, a.now))
    && (forall c :: c in s'.calls <==> c in s.calls || c == a.call)
    && (forall c :: c in s.calls ==> s'.calls[c] == s.calls[c])
    && (forall id :: id in s'.shared.table <==>
          Live(s.shared, id, a.now) || (id == a.req.deliveryId && |s'.traces| == n + 1))
    && (forall id :: Live(s.shared, id, a.now) ==> s'.shared.table[id] == s.shared.table[id])
    && if |s'.traces| == n + 1 then
         && !Live(s.shared, a.req.deliveryId, a.now)
         && s'.shared.table[a.req.deliveryId] == n
         && s'.shared.heap[n] == Receipt(a.req.fingerprint, a.req.expiresAt, false, 0, NO_OUTCOME)
         && s'.traces[n] == Trace(a.req.deliveryId, a.call, a.now, s.step, None, None, 0)
         && s'.calls[a.call] == Delivering(a.req, n)
       else
         && Live(s.shared, a.req.deliveryId, a.now)
         && var r := s.shared.table[a.req.deliveryId];
            s'.calls[a.call] == if s.shared.heap[r].fingerprint == a.req.fingerprint then Waiting(a.req, r)
                else Returned(a.req, Refused)
  }

  lemma MarkSweptMarks(s: State, now: int)
    requires TableInv(s)
    ensures forall r: nat :: r < |s.traces| ==> MarkSwept(s, now)[r] == Marked(s, r, now)
  {
  }

  lemma EnterHasEffect(s: State, a: Action)
    requires TableInv(s) && a.Enter? && Enabled(s, a)
    ensures EnterEffect(s, a, EnterStep(s, a))
  {
    assert forall id :: id in Sweep(s.shared, a.now).table <==> Live(s.shared, id, a.now);
    MarkSweptMarks(s, a.now);
  }

  lemma EnterKeepsTable(s: State, a: Action, s': State)
    requires Inv(s) && a.Enter? && Enabled(s, a) && EnterEffect(s, a, s')
    ensures TableInv(s')
  {
    forall id | id in s'.shared.table
      ensures s'.shared.table[id] < |s'.shared.heap|
      ensures s'.traces[s'.shared.table[id]].id == id && s'.traces[s'.shared.table[id]].swept.None?
    {
      if Live(s.shared, id, a.now) {
        assert s'.traces[s.shared.table[id]] == Marked(s, s.shared.table[id], a.now);
      }
    }
    forall r | 0 <= r < |s'.traces| && s'.traces[r].swept.None?
      ensures s'.traces[r].id in s'.shared.table && s'.shared.table[s'.traces[r].id] == r
    {
      if r < |s.traces| {
        assert s'.traces[r] == Marked(s, r, a.now);
        assert Live(s.shared, s.traces[r].id, a.now);
      }
    }
  }

  lemma EnterKeepsOwners(s: State, a: Action, s': State)
    requires Inv(s) && a.Enter? && Enabled(s, a) && EnterEffect(s, a, s')
    ensures OwnerInv(s') && CallInv(s')
  {
    forall r: nat | r < |s'.traces|
      ensures OwnerOf(s', r)
    {
      if r < |s.traces| {
        assert OwnerOf(s, r) && s'.traces[r] == Marked(s, r, a.now);
      }
    }
    forall c | c in s'.calls
      ensures CallFits(s', s'.calls[c], c)
    {
      if c != a.call {
        assert CallFits(s, s.calls[c], c);
        FitsAfterEnter(s, a, s', c);
      } else if |s'.traces| == |s.traces| {
        var r := s.shared.table[a.req.deliveryId];
        assert s'.traces[r] == Marked(s, r, a.now);
      }
    }
  }

  lemma FitsAfterEnter(s: State, a: Action, s': State, c: nat)
    requires Inv(s) && a.Enter? && Enabled(s, a) && EnterEffect(s, a, s')
    requires c in s.calls && CallFits(s, s.calls[c], c)
    ensures CallFits(s', s.calls[c], c)
  {
    forall r: nat | r < |s.traces|
      ensures s'.shared.heap[r] == s.shared.heap[r] && s'.traces[r].id == s.traces[r].id
      ensures s'.traces[r].owner == s.traces[r].owner
    {
      assert s'.traces[r] == Marked(s, r, a.now);
    }
  }

  lemma EnterKeepsTimes(s: State, a: Action, s': State)
    requires Inv(s) && a.Enter? && Enabled(s, a) && EnterEffect(s, a, s') && TableInv(s')
    ensures TimeInv(s')
  {
    forall r: nat | r < |s'.traces|
      ensures TimesOf(s', r)
    {
      if r < |s.traces| {
        assert TimesOf(s, r) && OwnerOf(s, r) && s'.traces[r] == Marked(s, r, a.now);
      }
    }
    forall r, q | 0 <= r < q < |s'.traces| && s'.traces[r].id == s'.traces[q].id
      ensures s'.traces[r].swept.Some? && s'.traces[r].swept.value <= s'.traces[q].started
    {
      PairAfterEnter(s, a, s', r, q);
    }
  }

  lemma PairAfterEnter(s: State, a: Action, s': State, r: nat, q: nat)
    requires Inv(s) && a.Enter? && Enabled(s, a) && EnterEffect(s, a, s') && TableInv(s')
    requires r < q < |s'.traces| && s'.traces[r].id == s'.traces[q].id
    ensures s'.traces[r].swept.Some? && s'.traces[r].swept.value <= s'.traces[q].started
    ensures q < |s.traces| ==> s'.traces[r].sweptAt == s.traces[r].sweptAt && s.traces[r].id == s.traces[q].id
  {
    assert TimesOf(s, r) && s'.traces[r] == Marked(s, r, a.now);
    if q < |s.traces| {
      assert s'.traces[q] == Marked(s, q, a.now);
    }
  }

  lemma CompleteKeepsReceipt(s: State, a: Action, r: nat)
    requires Inv(s) && a.Complete? && Enabled(s, a) && r < |s.traces|
    ensures var s' := Step(s, a); |s'.traces| == |s'.shared.heap| == |s.traces| && OwnerOf(s', r) && TimesOf(s', r)
  {
    assert CallFits(s, s.calls[a.call], a.call);
    assert OwnerOf(s, s.calls[a.call].receipt);
    assert OwnerOf(s, r) && TimesOf(s, r);
  }

  lemma CompleteKeepsInv(s: State, a: Action)
    requires Inv(s) && a.Complete? && Enabled(s, a)
    ensures Inv(Step(s, a))
  {
    var s' := Step(s, a);
    var done := s.calls[a.call].receipt;
    assert CallFits(s, s.calls[a.call], a.call) && OwnerOf(s, done);
    forall r: nat | r < |s'.traces|
      ensures OwnerOf(s', r) && TimesOf(s', r)
    {
      CompleteKeepsReceipt(s, a, r);
    }
    forall c | c in s'.calls
      ensures CallFits(s', s'.calls[c], c)
    {
      assert CallFits(s, s.calls[c], c);
    }
  }

  lemma ReturnKeepsInv(s: State, a: Action)
    requires Inv(s) && (a.Wake? || a.Cancel?) && Enabled(s, a)
    ensures Inv(Step(s, a))
  {
    var s' := Step(s, a);
    assert CallFits(s, s.calls[a.call], a.call);
    forall r | 0 <= r < |s'.traces|
      ensures OwnerOf(s', r) && TimesOf(s', r)
    {
      assert OwnerOf(s, r) && TimesOf(s, r);
    }
    forall c | c in s'.calls
      ensures CallFits(s', s'.calls[c], c)
    {
      assert CallFits(s, s.calls[c], c);
      assert a.Wake? ==> OwnerOf(s, s.calls[a.call].receipt);
    }
  }

  lemma StepKeepsInv(s: State, a: Action)
    requires Inv(s)
    ensures Inv(Step(s, a))
  {
    if Enabled(s, a) {
      match a
      case Enter(_, _, _) =>
        var s' := EnterStep(s, a);
        EnterHasEffect(s, a);
        EnterKeepsTable(s, a, s');
        EnterKeepsOwners(s, a, s');
        EnterKeepsTimes(s, a, s');
      case Complete(_, _) => CompleteKeepsInv(s, a);
      case Wake(_) => ReturnKeepsInv(s, a);
      case Cancel(_) => ReturnKeepsInv(s, a);
    }
  }

  lemma {:induction false} Reachable(actions: seq<Action>)
    ensures Inv(Run(actions))
  {
    if actions != [] {
      Reachable(actions[..|actions| - 1]);
      StepKeepsInv(Run(actions[..|actions| - 1]), actions[|actions| - 1]);
    }
  }

  // ---- The theorems -----------------------------------------------------------------------

  lemma InFlight(s: State, c: nat)
    requires Inv(s) && c in s.calls && s.calls[c].Delivering?
    ensures var k := s.calls[c];
            && k.receipt < |s.shared.heap|
            && k.req.deliveryId in s.shared.table
            && s.shared.table[k.req.deliveryId] == k.receipt
            && !s.shared.heap[k.receipt].completed
  {
    var r := s.calls[c].receipt;
    assert CallFits(s, s.calls[c], c);
    assert OwnerOf(s, r) && TimesOf(s, r);
  }

  /** In every interleaving at most one delivery per id is in flight. */
  lemma SingleFlight(actions: seq<Action>, c: nat, d: nat)
    requires var s := Run(actions);
             && c in s.calls && d in s.calls && s.calls[c].Delivering? && s.calls[d].Delivering?
             && s.calls[c].req.deliveryId == s.calls[d].req.deliveryId
    ensures c == d
  {
    Reachable(actions);
    var s := Run(actions);
    InFlight(s, c);
    InFlight(s, d);
  }

  /** An in-flight receipt stays in the table, uncompleted, whatever the other calls' clocks say. */
  lemma InFlightNeverEvicted(actions: seq<Action>, c: nat)
    requires var s := Run(actions); c in s.calls && s.calls[c].Delivering?
    ensures var s := Run(actions);
            var k := s.calls[c];
            && k.req.deliveryId in s.shared.table
            && s.shared.table[k.req.deliveryId] == k.receipt < |s.shared.heap|
            && !s.shared.heap[k.receipt].completed
  {
    Reachable(actions);
    InFlight(Run(actions), c);
  }

  /** A receipt's channel is closed once when it completes and never again. */
  lemma ClosedExactlyOnce(actions: seq<Action>, r: nat)
    requires r < |Run(actions).shared.heap|
    ensures var x := Run(actions).shared.heap[r]; x.closes == (if x.completed then 1 else 0)
  {
    Reachable(actions);
    assert OwnerOf(Run(actions), r);
  }

  /** Two receipts of one id: the earlier was completed, then found expired and swept, and only
      then did the later delivery begin. */
  lemma RedeliveryOnlyAfterSweep(actions: seq<Action>, r: nat, q: nat)
    requires var s := Run(actions); r < q < |s.traces| == |s.shared.heap| && s.traces[r].id == s.traces[q].id
    ensures var s := Run(actions);
            var t := s.traces[r];
            && t.finished.Some? && t.swept.Some?
            && t.started < t.finished.value < t.swept.value <= s.traces[q].started
            && s.shared.heap[r].expiresAt <= t.sweptAt
  {
    Reachable(actions);
    assert TimesOf(Run(actions), r);
  }

  /** A waiter that returns has exactly the pair its owner returned, for the same id and body,
      whether or not the receipt is still in the table. */
  lemma WaiterGetsOwnersPair(actions: seq<Action>, c: nat)
    requires var s := Run(actions); c in s.calls && s.calls[c].Returned? && s.calls[c].reply.Replayed?
    ensures var s := Run(actions);
            var k := s.calls[c];
            exists owner :: owner in s.calls && owner != c && s.calls[owner].Returned?
              && s.calls[owner].reply == Delivered(k.reply.receipt, k.reply.outcome)
              && s.calls[owner].req.deliveryId == k.req.deliveryId
              && s.calls[owner].req.fingerprint == k.req.fingerprint
  {
    Reachable(actions);
    var s := Run(actions);
    assert CallFits(s, s.calls[c], c);
    assert OwnerOf(s, s.calls[c].reply.receipt);
    assert s.calls[s.traces[s.calls[c].reply.receipt].owner].Returned?;
  }

  /** The three ways in, told from the receipt the table held before the sweep: with none, or one that is
      completed and whose deadline is not after `now`, the call delivers; otherwise it is refused exactly
      on another body and waits on that receipt exactly on the same. */
  lemma AdmissionExact(s: State, c: nat, req: Request, now: int)
    requires Inv(s) && c !in s.calls
    ensures var k, id := Step(s, Enter(c, req, now)).calls[c], req.deliveryId;
            if id !in s.shared.table then k == Delivering(req, |s.shared.heap|)
            else
              var r := s.shared.table[id];
              var x := s.shared.heap[r];
              k == if x.completed && x.expiresAt <= now then Delivering(req, |s.shared.heap|)
                   else if x.fingerprint == req.fingerprint then Waiting(req, r)
                   else Returned(req, Refused)
  {
  }

  /** The table holds the same receipt for an id in both states. */
  ghost predicate Keeps(s: State, s': State, id: string) {
    id in s.shared.table && id in s'.shared.table && s'.shared.table[id] == s.shared.table[id]
  }

  /** What an entering call does to the table: an id held before keeps its receipt exactly if that receipt
      is uncompleted or its deadline is after `now`; nothing else appears but the call's own new receipt,
      which carries the request's body and deadline. No receipt object changes. */
  lemma EvictionExact(s: State, c: nat, req: Request, now: int)
    requires Inv(s) && c !in s.calls
    ensures var s' := Step(s, Enter(c, req, now));
            && s.shared.heap <= s'.shared.heap
            && (forall id :: id in s.shared.table ==>
                  var x := s.shared.heap[s.shared.table[id]];
                  (Keeps(s, s', id) <==> !(x.completed && x.expiresAt <= now)))
            && (forall id :: id in s'.shared.table && !Keeps(s, s', id) ==>
                  id == req.deliveryId && s'.calls[c] == Delivering(req, |s.shared.heap|))
            && (s'.calls[c].Delivering? ==>
                  && |s'.shared.heap| == |s.shared.heap| + 1
                  && s'.shared.heap[|s.shared.heap|] ==
                     Receipt(req.fingerprint, req.expiresAt, false, 0, Outcome("", None))
                  && req.deliveryId in s'.shared.table && s'.shared.table[req.deliveryId] == |s.shared.heap|)
  {
    AdmissionExact(s, c, req, now);
  }

  /** No waiter is left behind: in every reachable state a waiter's receipt is either closed, so
      that the waiter can return, or still being delivered by its owner. */
  lemma WaiterNeverStranded(actions: seq<Action>, c: nat)
    requires var s := Run(actions); c in s.calls && s.calls[c].Waiting?
    ensures var s := Run(actions);
            || Enabled(s, Wake(c))
            || exists owner :: owner in s.calls && s.calls[owner].Delivering? &&
                s.calls[owner].receipt == s.calls[c].receipt
  {
    Reachable(actions);
    var s := Run(actions);
    var r := s.calls[c].receipt;
    assert CallFits(s, s.calls[c], c) && OwnerOf(s, r);
    if s.shared.heap[r].closes == 0 {
      assert s.calls[s.traces[r].owner].receipt == r;
    }
  }

  /** When a body is delivered again: a call for the body of the newest receipt r of its id starts
      another delivery exactly when r was swept before or is completed and expired now. */
  lemma RedeliveryExact(s: State, r: nat, c: nat, req: Request, now: int)
    requires Inv(s) && c !in s.calls && r < |s.traces| && s.traces[r].id == req.deliveryId
    requires forall q :: r < q < |s.traces| ==> s.traces[q].id != req.deliveryId
    ensures Step(s, Enter(c, req, now)).calls[c].Delivering? <==>
              s.traces[r].swept.Some? || (s.shared.heap[r].completed && s.shared.heap[r].expiresAt <= now)
  {
    AdmissionExact(s, c, req, now);
    if req.deliveryId in s.shared.table {
      var q := s.shared.table[req.deliveryId];
      assert s.traces[q].id == s.traces[r].id;
      assert q == r;
    }
  }

  // ---- Redelivery of one body -------------------------------------------------------------

  /** The clock values of the entering calls never go back in lock order. */
  ghost predicate Ordered(actions: seq<Action>) {
    forall i, j :: 0 <= i < j < |actions| && actions[i].Enter? && actions[j].Enter? ==> actions[i].now <= actions[j].now
  }

  /** No request has expired by the time its call sweeps. */
  ghost predicate Timely(actions: seq<Action>) {
    forall i :: 0 <= i < |actions| && actions[i].Enter? ==> actions[i].now < actions[i].req.expiresAt
  }

  /** Equal digests mean equal bodies, so the digest fixes the expiry field. */
  ghost predicate DigestFixesExpiry(actions: seq<Action>, expiryOf: Digest -> int) {
    forall i :: 0 <= i < |actions| && actions[i].Enter? ==>
        actions[i].req.expiresAt == expiryOf(actions[i].req.fingerprint)
  }

  ghost predicate ClockOf(s: State, r: nat, bound: int, expiryOf: Digest -> int)
    requires r < |s.traces| == |s.shared.heap|
  {
    var x, t := s.shared.heap[r], s.traces[r];
    && x.expiresAt == expiryOf(x.fingerprint)
    && t.enteredAt < x.expiresAt
    && t.enteredAt <= bound
    && (t.swept.Some? ==> t.sweptAt <= bound)
  }

  ghost predicate ClockInv(s: State, bound: int, expiryOf: Digest -> int)
    requires |s.traces| == |s.shared.heap|
  {
    && (forall r: nat :: r < |s.traces| ==> ClockOf(s, r, bound, expiryOf))
    && (forall r, q :: 0 <= r < q < |s.traces| && s.traces[r].id == s.traces[q].id ==>
        s.traces[r].sweptAt <= s.traces[q].enteredAt)
  }

  lemma StepKeepsClock(s: State, a: Action, bound: int, expiryOf: Digest -> int)
    requires Inv(s) && ClockInv(s, bound, expiryOf)
    requires a.Enter? ==> bound <= a.now < a.req.expiresAt == expiryOf(a.req.fingerprint)
    ensures Inv(Step(s, a)) && ClockInv(Step(s, a), if a.Enter? then a.now else bound, expiryOf)
  {
    StepKeepsInv(s, a);
    var s' := Step(s, a);
    if Enabled(s, a) && a.Enter? {
      EnterHasEffect(s, a);
      EnterKeepsClock(s, a, s', bound, expiryOf);
    } else {
      var bound' := if a.Enter? then a.now else bound;
      forall r: nat | r < |s'.traces|
        ensures ClockOf(s', r, bound', expiryOf)
      {
        assert ClockOf(s, r, bound, expiryOf);
      }
      assert forall r: nat :: r < |s'.traces| ==>
        s'.traces[r].id == s.traces[r].id && s'.traces[r].sweptAt == s.traces[r].sweptAt &&
            s'.traces[r].enteredAt == s.traces[r].enteredAt;
    }
  }

  lemma EnterClock(s: State, a: Action, s': State, bound: int, expiryOf: Digest -> int, r: nat)
    requires TableInv(s) && ClockInv(s, bound, expiryOf) && a.Enter? && EnterEffect(s, a, s')
    requires bound <= a.now < a.req.expiresAt == expiryOf(a.req.fingerprint) && r < |s'.traces|
    ensures ClockOf(s', r, a.now, expiryOf)
  {
    if r < |s.traces| {
      assert ClockOf(s, r, bound, expiryOf) && s'.traces[r] == Marked(s, r, a.now);
    }
  }

  lemma EnterKeepsClock(s: State, a: Action, s': State, bound: int, expiryOf: Digest -> int)
    requires Inv(s) && ClockInv(s, bound, expiryOf) && a.Enter? && Enabled(s, a) && EnterEffect(s, a, s') && Inv(s')
    requires bound <= a.now < a.req.expiresAt == expiryOf(a.req.fingerprint)
    ensures ClockInv(s', a.now, expiryOf)
  {
    forall r: nat | r < |s'.traces|
      ensures ClockOf(s', r, a.now, expiryOf)
    {
      EnterClock(s, a, s', bound, expiryOf, r);
    }
    forall r, q | 0 <= r < q < |s'.traces| && s'.traces[r].id == s'.traces[q].id
      ensures s'.traces[r].sweptAt <= s'.traces[q].enteredAt
    {
      EnterPair(s, a, s', bound, expiryOf, r, q);
    }
  }

  lemma EnterPair(s: State, a: Action, s': State, bound: int, expiryOf: Digest -> int, r: nat, q: nat)
    requires Inv(s) && ClockInv(s, bound, expiryOf) && a.Enter? && Enabled(s, a) && EnterEffect(s, a, s')
    requires TableInv(s')
    requires bound <= a.now < a.req.expiresAt == expiryOf(a.req.fingerprint)
    requires r < q < |s'.traces| && s'.traces[r].id == s'.traces[q].id
    ensures s'.traces[r].sweptAt <= s'.traces[q].enteredAt
  {
    PairAfterEnter(s, a, s', r, q);
    EnterClock(s, a, s', bound, expiryOf, r);
    if q < |s.traces| {
      assert s'.traces[q] == Marked(s, q, a.now);
    }
  }

  /** The bound after a run: the last entering clock value, or any lower bound before the first. */
  ghost function LastClock(actions: seq<Action>, low: int): int {
    if actions == [] then low
    else if actions[|actions| - 1].Enter? then actions[|actions| - 1].now
    else LastClock(actions[..|actions| - 1], low)
  }

  lemma {:induction false} LastClockBelow(actions: seq<Action>, low: int, now: int)
    requires low <= now
    requires forall i :: 0 <= i < |actions| && actions[i].Enter? ==> actions[i].now <= now
    ensures LastClock(actions, low) <= now
  {
    if actions != [] && !actions[|actions| - 1].Enter? {
      LastClockBelow(actions[..|actions| - 1], low, now);
    }
  }

  lemma {:induction false} ClocksRecorded(actions: seq<Action>, low: int, expiryOf: Digest -> int)
    requires Ordered(actions) && Timely(actions) && DigestFixesExpiry(actions, expiryOf)
    requires forall i :: 0 <= i < |actions| && actions[i].Enter? ==> low <= actions[i].now
    ensures Inv(Run(actions)) && ClockInv(Run(actions), LastClock(actions, low), expiryOf)
  {
    if actions != [] {
      var n := |actions| - 1;
      var before, a := actions[..n], actions[n];
      assert forall i :: 0 <= i < n ==> before[i] == actions[i];
      ClocksRecorded(before, low, expiryOf);
      if a.Enter? {
        LastClockBelow(before, low, a.now);
      }
      StepKeepsClock(Run(before), a, LastClock(before, low), expiryOf);
    }
  }

  lemma {:induction false} LowestClock(actions: seq<Action>) returns (low: int)
    ensures forall i :: 0 <= i < |actions| && actions[i].Enter? ==> low <= actions[i].now
  {
    if actions == [] {
      low := 0;
    } else {
      low := LowestClock(actions[1..]);
      assert forall i :: 1 <= i < |actions| ==> actions[i] == actions[1..][i - 1];
      if actions[0].Enter? && actions[0].now < low {
        low := actions[0].now;
      }
    }
  }

  /** With ordered clocks and no request expiring between its check and its sweep, one body is
      delivered at most once under one id, for ever. */
  lemma BodyDeliveredAtMostOnce(actions: seq<Action>, expiryOf: Digest -> int, r: nat, q: nat)
    requires Ordered(actions) && Timely(actions) && DigestFixesExpiry(actions, expiryOf)
    requires r < q < |Run(actions).traces| == |Run(actions).shared.heap|
    requires Run(actions).traces[r].id == Run(actions).traces[q].id
    ensures Run(actions).shared.heap[r].fingerprint != Run(actions).shared.heap[q].fingerprint
  {
    var low := LowestClock(actions);
    ClocksRecorded(actions, low, expiryOf);
    var s := Run(actions);
    assert ClockOf(s, r, LastClock(actions, low), expiryOf) && ClockOf(s, q, LastClock(actions, low), expiryOf);
    assert TimesOf(s, r);
  }

  /** When validateRequest looked at each entering request: before its sweep, and it had not expired. */
  ghost predicate PassedCheck(actions: seq<Action>, checkedAt: seq<int>) {
    |checkedAt| == |actions| && forall i :: 0 <= i < |actions| && actions[i].Enter? ==>
      checkedAt[i] <= actions[i].now && checkedAt[i] < actions[i].req.expiresAt
  }

  /** Without that margin the law fails: a retry checked just before the deadline and swept at it
      is delivered a second time with the same body, although every request passed its check. */
  lemma BodyDeliveredTwice() returns (actions: seq<Action>, checkedAt: seq<int>)
    ensures Ordered(actions) && DigestFixesExpiry(actions, _ => 10) && PassedCheck(actions, checkedAt)
    ensures |Run(actions).shared.heap| == 2 && |Run(actions).traces| == 2
    ensures Run(actions).traces[0].id == Run(actions).traces[1].id
    ensures Run(actions).shared.heap[0].fingerprint == Run(actions).shared.heap[1].fingerprint
  {
    var req := Request("d", "f", 10);
    var a0, a1, a2 := Enter(0, req, 5), Complete(0, NO_OUTCOME), Enter(1, req, 10);
    actions, checkedAt := [a0, a1, a2], [5, 5, 9];
    TwiceRun(req, a0, a1, a2);
  }

  lemma TwiceRun(req: Request, a0: Action, a1: Action, a2: Action)
    requires req.expiresAt == 10 && a0 == Enter(0, req, 5) && a1 == Complete(0, NO_OUTCOME) && a2 == Enter(1, req, 10)
    ensures var s := Run([a0, a1, a2]);
            && |s.shared.heap| == 2 && |s.traces| == 2
            && s.traces[0].id == s.traces[1].id && s.shared.heap[0].fingerprint == s.shared.heap[1].fingerprint
  {
    var actions := [a0, a1, a2];
    assert actions[..2] == [a0, a1] && [a0, a1][..1] == [a0] && [a0][..0] == [];
    assert Run([a0]) == Step(INITIAL, a0);
    assert Run([a0, a1]) == Step(Run([a0]), a1);
    assert Run(actions) == Step(Run([a0, a1]), a2);
    assert Run([a0]).shared.heap == [Receipt(req.fingerprint, 10, false, 0, NO_OUTCOME)];
    assert Run([a0, a1]).shared.heap == [Receipt(req.fingerprint, 10, true, 1, NO_OUTCOME)];
    assert Run([a0, a1]).traces[0].id == req.deliveryId;
  }
}
