/** The receipt table of the OTP webhook as the objects the program mutates. The methods are the
    critical sections of `deliverOnce`, proved to be the protocol's steps and to keep its invariant,
    so its theorems hold of the objects; Enter, Complete and Wake say what their call gets. */
module OtpApplication {
  import opened Common
  import opened OtpProtocol

  class ReceiptObject {
    const fingerprint: Digest
    const expiresAt: int
    var completed: bool
    var closes: nat
    var outcome: Outcome
    ghost const index: nat

    constructor (fingerprint: Digest, expiresAt: int, ghost index: nat)
      ensures this.index == index
      ensures Value() == Receipt(fingerprint, expiresAt, false, 0, NO_OUTCOME)
    {
      this.fingerprint := fingerprint;
      this.expiresAt := expiresAt;
      this.index := index;
      completed, closes, outcome := false, 0, NO_OUTCOME;
    }

    ghost function Value(): Receipt
      reads this
    {
      Receipt(fingerprint, expiresAt, completed, closes, outcome)
    }
  }

  /** What the first critical section hands back to its call. */
  datatype Entry = Conflicting | Joined(existing: ReceiptObject) | Owned(current: ReceiptObject)

  class Application {
    var receipts: map<string, ReceiptObject>
    /** Every receipt object ever created, in order; waiters may hold objects the table has lost. */
    ghost var created: seq<ReceiptObject>

    /** The protocol's state: what the objects hold, and the calls and receipts so far. */
    ghost var state: State

    ghost predicate Shaped()
      reads this`receipts, this`created, created
    {
      && (forall i :: 0 <= i < |created| ==> created[i].index == i)
      && (forall id :: id in receipts ==> Known(receipts[id]))
    }

    /** The objects are those of a state that keeps the protocol's invariant. */
    ghost predicate Valid()
      reads this, created
    {
      Shaped() && View() == state.shared && Inv(state)
    }

    ghost predicate Known(r: ReceiptObject)
      reads this`created
    {
      r.index < |created| && created[r.index] == r
    }

    ghost function View(): Shared
      requires Shaped()
      reads this`receipts, this`created, created
    {
      var all := created;
      Shared(seq(|all|, i requires 0 <= i < |all| reads all => all[i].Value()),
          map id | id in receipts :: receipts[id].index)
    }

    constructor ()
      ensures Valid() && state == INITIAL && receipts == map[]
    {
      receipts, created, state := map[], [], INITIAL;
    }

    /** The entries of a table that a sweep at `now` keeps. */
    ghost function Kept(table: map<string, ReceiptObject>, now: int): map<string, ReceiptObject>
      reads table.Values
    {
      map id | id in table && !Expired(table[id].Value(), now) :: table[id]
    }

    /** The sweep over the table, deleting while it visits. */
    method SweepReceipts(now: int)
      modifies this`receipts
      ensures receipts == Kept(old(receipts), now)
      ensures forall id :: id in receipts <==>
                id in old(receipts) && !(old(receipts)[id].completed && old(receipts)[id].expiresAt <= now)
      ensures forall id :: id in receipts ==> receipts[id] == old(receipts)[id]
    {
      ghost var before := receipts;
      var todo := receipts.Keys;
      while todo != {}
        invariant todo <= receipts.Keys <= before.Keys
        invariant forall id :: id in receipts ==> receipts[id] == before[id]
        invariant forall id :: id in before && id !in todo ==> (id in receipts <==> !Expired(before[id].Value(), now))
        decreases todo
      {
        var id := Pick(todo);
        var existing := receipts[id];
        if existing.completed && existing.expiresAt <= now {
          receipts := receipts - {id};
        }
        todo := todo - {id};
      }
    }

    /** Keeping entries of the table is what the protocol's sweep does to the view. */
    lemma KeptView(now: int)
      requires Shaped()
      ensures Sweep(View(), now).table == map id | id in Kept(receipts, now) :: receipts[id].index
    {
    }

    method SweepTable(now: int)
      requires Shaped()
      modifies this`receipts
      ensures Shaped() && View() == Sweep(old(View()), now)
      ensures forall id :: id in receipts <==>
                id in old(receipts) && !(old(receipts)[id].completed && old(receipts)[id].expiresAt <= now)
      ensures forall id :: id in receipts ==> receipts[id] == old(receipts)[id]
    {
      KeptView(now);
      SweepReceipts(now);
    }

    /** A new receipt under an id the table does not hold. */
    method Insert(req: Request) returns (current: ReceiptObject)
      requires Shaped()
      modifies this`receipts, this`created
      ensures Shaped() && Known(current) && fresh(current) && current.index == |old(View()).heap|
      ensures View() == Shared(old(View()).heap + [Receipt(req.fingerprint, req.expiresAt, false, 0, NO_OUTCOME)],
                               old(View()).table[req.deliveryId := current.index])
    {
      ghost var before := View();
      current := new ReceiptObject(req.fingerprint, req.expiresAt, |created|);
      created := created + [current];
      receipts := receipts[req.deliveryId := current];
      assert View().heap == before.heap + [current.Value()];
      assert View().table == before.table[req.deliveryId := |before.heap|];
    }

    /** Sweep, then refuse, join or own: the first critical section on the table. */
    method EnterTable(req: Request, now: int) returns (entry: Entry)
      requires Shaped()
      modifies this`receipts, this`created
      ensures Shaped()
      ensures View() == Admit(old(View()), req, now).0
      ensures Admit(old(View()), req, now).1 == AdmissionOf(entry)
      ensures entry.Joined? ==> Known(entry.existing) && entry.existing.fingerprint == req.fingerprint
      ensures entry.Owned? ==> Known(entry.current) && fresh(entry.current)
      ensures entry.Owned? <==>
                || req.deliveryId !in old(receipts)
                || (old(receipts[req.deliveryId].completed) && old(receipts[req.deliveryId].expiresAt) <= now)
      ensures entry.Joined? ==> req.deliveryId in old(receipts) && entry.existing == old(receipts)[req.deliveryId]
      ensures entry.Conflicting? ==>
                req.deliveryId in old(receipts) && old(receipts)[req.deliveryId].fingerprint != req.fingerprint
    {
      SweepTable(now);
      if req.deliveryId in receipts {
        var existing := receipts[req.deliveryId];
        assert View().heap[View().table[req.deliveryId]] == existing.Value();
        entry := if existing.fingerprint != req.fingerprint then Conflicting else Joined(existing);
      } else {
        var current := Insert(req);
        entry := Owned(current);
      }
    }

    /** The first critical section of call c. An owner is then the only call delivering this id; a waiter
        holds a receipt of the same id and body. */
    method Enter(ghost c: nat, req: Request, now: int) returns (entry: Entry)
      requires Valid() && c !in state.calls
      modifies this
      ensures Valid() && state == Step(old(state), Action.Enter(c, req, now)) && c in state.calls
      ensures state.calls[c] == CallOf(req, AdmissionOf(entry))
      ensures entry.Joined? ==> Known(entry.existing) && entry.existing.fingerprint == req.fingerprint
      ensures entry.Owned? ==> Known(entry.current) && fresh(entry.current) && Alone(state, c)
      ensures entry.Owned? <==>
                || req.deliveryId !in old(receipts)
                || (old(receipts[req.deliveryId].completed) && old(receipts[req.deliveryId].expiresAt) <= now)
      ensures entry.Joined? ==> req.deliveryId in old(receipts) && entry.existing == old(receipts)[req.deliveryId]
      ensures entry.Conflicting? ==>
                req.deliveryId in old(receipts) && old(receipts)[req.deliveryId].fingerprint != req.fingerprint
    {
      EnterOutcome(state, c, req, now);
      ghost var next := Step(state, Action.Enter(c, req, now));
      entry := EnterTable(req, now);
      Follow(next);
    }

    /** The protocol's state moves on to one that describes the objects. */
    ghost method Follow(next: State)
      requires Shaped() && View() == next.shared && Inv(next)
      modifies this`state
      ensures Valid() && state == next
    {
      state := next;
    }

    /** The owner records its outcome and closes the channel, which no one closed before. */
    method Complete(ghost c: nat, current: ReceiptObject, outcome: Outcome)
      requires Valid() && Known(current) && c in state.calls && state.calls[c].Delivering?
      requires state.calls[c].receipt == current.index
      modifies this`state, current
      ensures Valid() && state == Step(old(state), Action.Complete(c, outcome))
      ensures c in state.calls && state.calls[c] == Returned(old(state).calls[c].req, Delivered(current.index, outcome))
      ensures current.completed && current.closes == 1 && current.outcome == outcome
    {
      ghost var before := state;
      assert before.shared.heap[current.index] == current.Value();
      StepKeepsInv(before, Action.Complete(c, outcome));
      OwnedOpen(before, c);
      current.outcome := outcome;
      current.completed := true;
      current.closes := current.closes + 1;
      state := Step(before, Action.Complete(c, outcome));
      assert View().heap == state.shared.heap;
      assert View().table == state.shared.table;
    }

    /** A waiter whose channel is closed reads the pair from the object it holds, in the table or not: the
        pair its owner returned. */
    method Wake(ghost c: nat, existing: ReceiptObject) returns (outcome: Outcome)
      requires Valid() && Known(existing) && existing.closes > 0
      requires c in state.calls && state.calls[c].Waiting? && state.calls[c].receipt == existing.index
      modifies this`state
      ensures Valid() && state == Step(old(state), Action.Wake(c)) && c in state.calls
      ensures state.calls[c] == Returned(old(state).calls[c].req, Replayed(existing.index, outcome))
      ensures existing.index < |state.traces| && state.traces[existing.index].owner in state.calls
      ensures var k := state.calls[state.traces[existing.index].owner];
              k == Returned(k.req, Delivered(existing.index, outcome)) &&
                  k.req.deliveryId == state.calls[c].req.deliveryId
    {
      ghost var before := state;
      assert before.shared.heap[existing.index] == existing.Value();
      StepKeepsInv(before, Action.Wake(c));
      outcome := existing.outcome;
      state := Step(before, Action.Wake(c));
      OwnerAnswered(state, existing.index, c);
    }
  }

  /** No other call is delivering the id of call c. */
  ghost predicate Alone(s: State, c: nat)
    requires c in s.calls
  {
    forall d :: d in s.calls && s.calls[d].Delivering? && d != c ==>
        s.calls[d].req.deliveryId != s.calls[c].req.deliveryId
  }

  /** What becomes of a call by its admission. */
  function CallOf(req: Request, a: Admission): Call {
    match a
    case Conflict => Returned(req, Refused)
    case Join(r) => Waiting(req, r)
    case Own(r) => Delivering(req, r)
  }

  ghost function AdmissionOf(entry: Entry): Admission {
    match entry
    case Conflicting => Conflict
    case Joined(r) => Join(r.index)
    case Owned(r) => Own(r.index)
  }

  /** What an entering call finds, said of the admission. */
  lemma EnterOutcome(s: State, c: nat, req: Request, now: int)
    requires Inv(s) && c !in s.calls
    ensures var s' := Step(s, Action.Enter(c, req, now));
            && Inv(s') && s'.shared == Admit(s.shared, req, now).0 && c in s'.calls
            && s'.calls[c] == CallOf(req, Admit(s.shared, req, now).1)
            && (s'.calls[c].Delivering? ==> Alone(s', c))
  {
    var s' := Step(s, Action.Enter(c, req, now));
    StepKeepsInv(s, Action.Enter(c, req, now));
    assert s' == EnterStep(s, Action.Enter(c, req, now));
    if s'.calls[c].Delivering? {
      OnlyDelivery(s', c);
    }
  }

  lemma OnlyDelivery(s: State, c: nat)
    requires Inv(s) && c in s.calls && s.calls[c].Delivering?
    ensures Alone(s, c)
  {
    InFlight(s, c);
    forall d | d in s.calls && s.calls[d].Delivering? && d != c
      ensures s.calls[d].req.deliveryId != s.calls[c].req.deliveryId
    {
      InFlight(s, d);
    }
  }

  lemma OwnedOpen(s: State, c: nat)
    requires Inv(s) && c in s.calls && s.calls[c].Delivering?
    ensures s.calls[c].receipt < |s.shared.heap| && s.shared.heap[s.calls[c].receipt].closes == 0
  {
    InFlight(s, c);
    assert OwnerOf(s, s.calls[c].receipt);
  }

  lemma OwnerAnswered(s: State, r: nat, c: nat)
    requires Inv(s) && c in s.calls && s.calls[c].Returned? && s.calls[c].reply.Replayed?
    requires s.calls[c].reply.receipt == r
    ensures r < |s.traces| && s.traces[r].owner in s.calls
    ensures var k := s.calls[s.traces[r].owner];
            && k == Returned(k.req, Delivered(r, s.calls[c].reply.outcome))
            && k.req.deliveryId == s.calls[c].req.deliveryId
  {
    assert CallFits(s, s.calls[c], c);
    assert OwnerOf(s, r);
  }
}
