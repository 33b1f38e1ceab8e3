/** The admin service as the object whose stores the commands update: the journal's two atomic
    operations and `runCommand` around a ledger body and around the freeze body. Each method is
    proved to be steps of the interleaved machine and to keep its invariants, so every theorem about
    runs holds of the object; the whole commands say what their caller gets. */
module AdminService {
  import opened Common
  import opened AdminJournal
  import opened JsonValues
  import A = AdminTheorems
  import F = AccountFreeze

  class Service {
    const cfg: Config
    var journal: map<string, Entry>
    var accounts: map<int, Account>
    var rows: map<int, FreezeRow>
    ghost var calls: map<nat, Call>
    ghost var bodies: seq<string>
    ghost var ledger: seq<Posting>
    ghost var changes: seq<Change>
    /** The balances the service began with. */
    ghost const base: map<int, Account>

    constructor (cfg: Config, accounts: map<int, Account>)
      ensures Valid() && this.cfg == cfg && base == accounts && Value() == Initial(accounts)
    {
      this.cfg, this.accounts, journal, rows := cfg, accounts, map[], map[];
      calls, bodies, ledger, changes := map[], [], [], [];
      base := accounts;
      new;
      A.InitialLedger(cfg, accounts);
    }

    /** At most one run per id, and balances that agree with the postings. */
    ghost predicate Valid()
      reads this
    {
      Good(cfg, base, Value())
    }

    ghost function Value(): State
      reads this
    {
      State(journal, accounts, rows, calls, bodies, ledger, changes)
    }

    /** Insert if absent; otherwise hand back the row that is there. */
    method BeginCommand(cmd: Entry) returns (row: Entry, created: bool)
      modifies this`journal
      ensures created <==> cmd.id !in old(journal)
      ensures created ==> journal == old(journal)[cmd.id := cmd] && row == cmd
      ensures !created ==> journal == old(journal) && row == journal[cmd.id]
    {
      created := cmd.id !in journal;
      if created {
        journal := journal[cmd.id := cmd];
      }
      row := journal[cmd.id];
    }

    /** Write a result back, unless the store call is lost. */
    method FinishCommand(id: string, status: Status, result: CommandResult, error: Option<Failure>, written: bool)
      returns (ok: bool)
      modifies this`journal
      ensures ok <==> written && id in old(journal)
      ensures journal == if ok then old(journal)[id := old(journal)[id].(status := status, stored := Written(result),
                error := error)]
                         else old(journal)
    {
      ok := written && id in journal;
      if ok {
        journal := journal[id := journal[id].(status := status, stored := Written(result), error := error)];
      }
    }

    /** The head of runCommand: trimmed metadata is checked, the row begun or answered from. */
    method Admit(ghost c: nat, req: Request, now: int) returns (reply: Option<Reply>)
      requires c !in calls
      modifies this`journal, this`calls
      ensures Value() == StartStep(cfg, old(Value()), c, req, now)
      ensures if reply.None? then calls[c] == Begun(req, now) else calls[c] == Returned(req, reply.value)
      ensures Started(old(Value()), Value(), c, req, now)
    {
      StartReplies(cfg, Value(), c, req, now);
      if !Shape(req.op) || !ValidMeta(req.meta) {
        reply := Some(Rejected);
        calls := calls[c := Returned(req, Rejected)];
        return;
      }
      var row, created := BeginCommand(Entry(req.meta.id, Action(req.op), req.meta.dryRun, req.payload, Running,
          cfg.blank, None));
      if created {
        reply := None;
        calls := calls[c := Begun(req, now)];
      } else {
        reply := Some(if SameCommand(row, req) then Replay(ReplayOf(row)) else Conflict);
        calls := calls[c := Returned(req, reply.value)];
      }
    }

    /** The tail of runCommand: assemble, journal, answer. */
    method Conclude(ghost c: nat, req: Request, body: Body, err: Option<Failure>, written: bool) returns (reply: Reply)
      requires c in calls && calls[c] == Ran(req, body, err)
      modifies this`journal, this`calls
      ensures Value() == FinishStep(old(Value()), c, written) && calls[c] == Returned(req, reply)
      ensures Closed(old(Value()), Value(), c)
    {
      FinishReplies(Value(), c, written);
      var result := Assemble(req, body, err);
      var response := result.(details := result.details + body.transient);
      var ok := FinishCommand(req.meta.id, result.status, result, result.error, written);
      reply := if ok then Answer(response, err, body.transient) else Lost(response);
      calls := calls[c := Returned(req, reply)];
    }

    /** The bodies of GrantStars, DebitStars and of commands outside the modelled stores, up to their
        first store call; a debit goes on after the starting grant. */
    method LedgerBody(ghost c: nat, req: Request, fault: Fault, body: Body)
      returns (err: Option<Failure>, granted: bool)
      requires c in calls && calls[c].Begun? && calls[c].req == req && !IsFreeze(req.op)
      modifies this`accounts, this`calls, this`bodies, this`ledger
      ensures Value() == LedgerStep(cfg, old(Value()), c, fault, body)
      ensures calls[c] == if granted then Granted(req) else Ran(req, body, err)
      ensures granted ==> req.op.DebitStars? && !req.meta.dryRun
    {
      err, granted := None, false;
      bodies := bodies + [req.meta.id];
      if fault == EarlyFault {
        err := Some(LookupFailed);
      } else if !req.meta.dryRun {
        match req.op
        case GrantStars(user, amount) =>
          if fault == LateFault {
            err := Some(LedgerFailed);
          } else {
            accounts := Credit(accounts, user, amount);
            ledger := ledger + [Posting(req.meta.id, c, req.op)];
          }
        case DebitStars(user, amount) =>
          if fault == LateFault {
            err := Some(LedgerFailed);
          } else {
            accounts := EnsureGrant(accounts, user, cfg.grant);
            granted := true;
          }
        case _ =>
          if fault == LateFault {
            err := Some(OtherFailure);
          }
      }
      calls := calls[c := if granted then Granted(req) else Ran(req, body, err)];
    }

    /** The debit after the starting grant. */
    method DebitBody(ghost c: nat, req: Request, fault: Fault, body: Body) returns (err: Option<Failure>)
      requires c in calls && calls[c] == Granted(req) && req.op.DebitStars? && !req.meta.dryRun
      modifies this`accounts, this`calls, this`ledger
      ensures Value() == DebitStep(old(Value()), c, fault, body) && calls[c] == Ran(req, body, err)
    {
      err := None;
      if fault != NoFault {
        err := Some(LedgerFailed);
      } else if BalanceOf(accounts, req.op.user).balance < req.op.amount {
        err := Some(StarsInsufficient);
      } else {
        accounts := Credit(accounts, req.op.user, -req.op.amount);
        ledger := ledger + [Posting(req.meta.id, c, req.op)];
      }
      calls := calls[c := Ran(req, body, err)];
    }

    /** A ledger body with its one or two store calls. */
    method RunLedgerBody(ghost c: nat, req: Request, fault: Fault, late: Fault, body: Body)
      returns (err: Option<Failure>)
      requires c in calls && calls[c].Begun? && calls[c].req == req && !IsFreeze(req.op)
      modifies this`accounts, this`calls, this`bodies, this`ledger
      ensures Value() == Steps(cfg, old(Value()), [Exec(c, fault, body), Exec(c, late, body)])
      ensures LedgerDone(cfg, old(Value()), Value(), c) && calls[c] == Ran(req, body, err)
      ensures EndsWith(cfg, old(accounts), req, fault, late, err)
    {
      ghost var start := Value();
      LedgerBodyRuns(cfg, start, c, fault, late, body);
      var granted;
      err, granted := LedgerBody(c, req, fault, body);
      if granted {
        err := DebitBody(c, req, late, body);
      }
    }

    /** The store calls of a whole ledger command, nobody else moving. */
    method LedgerCommandSteps(ghost c: nat, req: Request, now: int, fault: Fault, late: Fault, body: Body,
                              written: bool)
      returns (reply: Reply)
      requires c !in calls && !IsFreeze(req.op)
      modifies this
      ensures Value() == Steps(cfg, old(Value()), LedgerActs(c, req, now, fault, late, body, written))
      ensures c in calls && calls[c] == Returned(req, reply)
      ensures LedgerReply(cfg, old(Value()), Value(), c, req, fault, late, reply)
    {
      ghost var s0 := Value();
      var answer := Admit(c, req, now);
      ghost var s1 := Value();
      if answer.Some? {
        reply := answer.value;
        CommandJoins(cfg, s0, s1, s1, s1, c, req, now, Exec(c, fault, body), Exec(c, late, body), written);
        return;
      }
      var err := RunLedgerBody(c, req, fault, late, body);
      ghost var s2 := Value();
      reply := Conclude(c, req, body, err, written);
      CommandJoins(cfg, s0, s1, s2, Value(), c, req, now, Exec(c, fault, body), Exec(c, late, body), written);
      LedgerReplies(cfg, s0, s1, s2, Value(), c, req, now, fault, late);
    }

    /** A whole ledger command, nobody else moving: admitted, run and journalled, or answered. A known id
        touches no store and is replayed or refused. Otherwise the balances move by the command's amount
        exactly if its answer says completed and it was no dry run, apart from a starting grant. */
    method RunLedgerCommand(ghost c: nat, req: Request, now: int, fault: Fault, late: Fault, body: Body, written: bool)
      returns (reply: Reply)
      requires Valid() && c !in calls && !IsFreeze(req.op)
      modifies this
      ensures Valid()
      ensures Value() == Steps(cfg, old(Value()), LedgerActs(c, req, now, fault, late, body, written))
      ensures c in calls && calls[c] == Returned(req, reply)
      ensures LedgerReply(cfg, old(Value()), Value(), c, req, fault, late, reply)
    {
      ActsKeep(cfg, base, Value(), LedgerActs(c, req, now, fault, late, body, written));
      reply := LedgerCommandSteps(c, req, now, fault, late, body, written);
    }

    /** SetAccountFrozen's body up to the read of the stored row. */
    method FreezeLoad(ghost c: nat, req: Request, now: int, failed: bool)
      returns (err: Option<Failure>, prev: Option<FreezeRow>)
      requires c in calls && calls[c] == Begun(req, now) && IsFreeze(req.op) && Shape(req.op)
      modifies this`calls, this`bodies
      ensures Value() == LoadStep(old(Value()), c, failed)
      ensures calls[c] == if err.Some? then Ran(req, NO_BODY, err) else Loaded(req, now, prev)
    {
      err, prev := None, None;
      bodies := bodies + [req.meta.id];
      if req.op.Freeze? && req.op.until.value <= now {
        err := Some(DeadlinePassed);
      } else if failed {
        err := Some(RestrictionStoreFailed);
      } else {
        prev := Get(rows, req.op.user);
      }
      calls := calls[c := if err.Some? then Ran(req, NO_BODY, err) else Loaded(req, now, prev)];
    }

    /** The rest of the body: derive the next row, check it, and write it unless rehearsing. */
    method FreezeWrite(ghost c: nat, req: Request, now: int, prev: Option<FreezeRow>, fault: Fault, body: Body)
      returns (err: Option<Failure>)
      requires c in calls && calls[c] == Loaded(req, now, prev) && IsFreeze(req.op) && Shape(req.op)
      modifies this`rows, this`calls, this`changes
      ensures Value() == WriteStep(old(Value()), c, fault, body) && calls[c] == Ran(req, body, err)
    {
      err := None;
      var next := NextRow(req.op, now, prev);
      if next.frozen && (next.since.None? || next.until.value <= next.since.value) {
        err := Some(DeadlineBeforeSince);
      } else if !req.meta.dryRun {
        if fault != NoFault || !ShapeCheck(StoredRow(next)) {
          err := Some(RestrictionStoreFailed);
        } else {
          rows := rows[req.op.user := StoredRow(next)];
          changes := changes + [Change(req.op.user, next.frozen, now, req.op)];
        }
      }
      calls := calls[c := Ran(req, body, err)];
    }

    /** SetAccountFrozen's body with its read and its write. */
    method RunFreezeBody(ghost c: nat, req: Request, now: int, failed: bool, fault: Fault, body: Body)
      returns (err: Option<Failure>, used: Body)
      requires c in calls && calls[c] == Begun(req, now) && IsFreeze(req.op) && Shape(req.op)
      modifies this`rows, this`calls, this`bodies, this`changes
      ensures Value() == Steps(cfg, old(Value()), [Load(c, failed), Exec(c, fault, body)])
      ensures FreezeDone(old(Value()), Value(), c, now, failed, fault) && calls[c] == Ran(req, used, err)
    {
      FreezeBodyRuns(cfg, Value(), c, failed, fault, body);
      var prev;
      err, prev := FreezeLoad(c, req, now, failed);
      used := NO_BODY;
      if err.None? {
        err := FreezeWrite(c, req, now, prev, fault, body);
        used := body;
      }
    }

    /** The store calls of a whole SetAccountFrozen, nobody else moving. */
    method FreezeCommandSteps(ghost c: nat, req: Request, now: int, failed: bool, fault: Fault, body: Body,
                              written: bool)
      returns (reply: Reply)
      requires c !in calls && IsFreeze(req.op)
      modifies this
      ensures Value() == Steps(cfg, old(Value()), FreezeActs(c, req, now, failed, fault, body, written))
      ensures c in calls && calls[c] == Returned(req, reply)
      ensures FreezeReply(old(Value()), Value(), req, now, failed, fault, reply)
    {
      ghost var s0 := Value();
      var answer := Admit(c, req, now);
      ghost var s1 := Value();
      if answer.Some? {
        reply := answer.value;
        CommandJoins(cfg, s0, s1, s1, s1, c, req, now, Load(c, failed), Exec(c, fault, body), written);
        return;
      }
      var err, used := RunFreezeBody(c, req, now, failed, fault, body);
      ghost var s2 := Value();
      reply := Conclude(c, req, used, err, written);
      CommandJoins(cfg, s0, s1, s2, Value(), c, req, now, Load(c, failed), Exec(c, fault, body), written);
      FreezeReplies(s0, s1, s2, Value(), c, req, now, failed, fault);
    }

    /** A whole SetAccountFrozen, nobody else moving. The user's row changes exactly if the command was
        new, its answer says completed and it was no dry run. With a clock past the epoch valid rows stay
        valid, and the user may then send exactly if this was no freeze. */
    method RunFreezeCommand(ghost c: nat, req: Request, now: int, failed: bool, fault: Fault, body: Body, written: bool)
      returns (reply: Reply)
      requires Valid() && c !in calls && IsFreeze(req.op)
      modifies this
      ensures Valid()
      ensures Value() == Steps(cfg, old(Value()), FreezeActs(c, req, now, failed, fault, body, written))
      ensures c in calls && calls[c] == Returned(req, reply)
      ensures FreezeReply(old(Value()), Value(), req, now, failed, fault, reply)
      ensures old(F.RowInv(Value())) && now >= SECOND ==> F.RowInv(Value())
    {
      ActsKeep(cfg, base, Value(), FreezeActs(c, req, now, failed, fault, body, written));
      reply := FreezeCommandSteps(c, req, now, failed, fault, body, written);
    }
  }

  // ---- Whole commands as steps of the machine -------------------------------------------------

  ghost predicate Good(cfg: Config, base: map<int, Account>, s: State) {
    A.Inv(cfg, s) && A.LedgerInv(cfg, base, s)
  }

  /** The acts of a ledger command; those it does not reach do nothing. */
  function LedgerActs(c: nat, req: Request, now: int, fault: Fault, late: Fault, body: Body, written: bool): seq<Act> {
    [Start(c, req, now), Exec(c, fault, body), Exec(c, late, body), Finish(c, written)]
  }

  function FreezeActs(c: nat, req: Request, now: int, failed: bool, fault: Fault, body: Body, written: bool): seq<Act> {
    [Start(c, req, now), Load(c, failed), Exec(c, fault, body), Finish(c, written)]
  }

  /** Any acts keep the invariants, and valid rows when the clocks are past the epoch. */
  lemma ActsKeep(cfg: Config, base: map<int, Account>, s: State, acts: seq<Act>)
    requires Good(cfg, base, s)
    ensures Good(cfg, base, Steps(cfg, s, acts))
    ensures F.RowInv(s) && F.PositiveClocks(acts) ==> F.RowInv(Steps(cfg, s, acts))
  {
    A.StepsKeep(cfg, s, acts);
    A.StepsConserve(cfg, base, s, acts);
    if F.RowInv(s) && F.PositiveClocks(acts) {
      F.StepsKeepRows(cfg, s, acts);
    }
  }

  lemma OneStep(cfg: Config, s: State, a: Act)
    ensures Steps(cfg, s, [a]) == Step(cfg, s, a)
  {
    assert [a][1..] == [];
    assert Steps(cfg, Step(cfg, s, a), []) == Step(cfg, s, a);
  }

  /** An answered call does not move again. */
  lemma Idle(cfg: Config, s: State, c: nat, a: Act)
    requires c in s.calls && s.calls[c].Returned? && a.call == c
    ensures Step(cfg, s, a) == s
  {
  }

  lemma ActsJoin(cfg: Config, s: State, start: Act, first: Act, second: Act, finish: Act)
    ensures Steps(cfg, s, [start, first, second, finish]) ==
            Step(cfg, Steps(cfg, Step(cfg, s, start), [first, second]), finish)
  {
    assert [start] + [first, second] + [finish] == [start, first, second, finish];
    F.StepsJoin(cfg, s, [start] + [first, second], [finish]);
    F.StepsJoin(cfg, s, [start], [first, second]);
    OneStep(cfg, s, start);
    OneStep(cfg, Steps(cfg, Step(cfg, s, start), [first, second]), finish);
  }

  /** Admission, two acts of the body and the journalling, or an answer at once, are the acts in a row. */
  lemma CommandJoins(cfg: Config, s0: State, s1: State, s2: State, s3: State, c: nat, req: Request, now: int,
                     first: Act, second: Act, written: bool)
    requires c !in s0.calls && s1 == StartStep(cfg, s0, c, req, now) && c in s1.calls && first.call == second.call == c
    requires s1.calls[c].Returned? ==> s2 == s1 && s3 == s1
    requires !s1.calls[c].Returned? ==> s2 == Steps(cfg, s1, [first, second])
    requires !s1.calls[c].Returned? ==> c in s2.calls && s2.calls[c].Ran? && s3 == FinishStep(s2, c, written)
    ensures Steps(cfg, s0, [Start(c, req, now), first, second, Finish(c, written)]) == s3
  {
    ActsJoin(cfg, s0, Start(c, req, now), first, second, Finish(c, written));
    assert Step(cfg, s0, Start(c, req, now)) == s1;
    if s1.calls[c].Returned? {
      F.TwoSteps(cfg, s1, first, second);
      Idle(cfg, s1, c, first);
      Idle(cfg, s1, c, second);
      Idle(cfg, s1, c, Finish(c, written));
    }
  }

  // ---- What the caller gets -------------------------------------------------------------------

  /** How a start ends: rejected, answered from the journal, or begun. */
  ghost predicate Started(s: State, s': State, c: nat, req: Request, now: int) {
    var id := req.meta.id;
    && A.SameStores(s, s') && c in s'.calls
    && (s'.calls[c].Begun? <==> Acceptable(req) && id !in s.journal)
    && (s'.calls[c].Begun? ==>
          && s'.calls[c] == Begun(req, now) && id in s'.journal && s'.journal == s.journal[id := s'.journal[id]]
          && s'.journal[id].status == Running && s'.journal[id].action == Action(req.op)
          && s'.journal[id].dryRun == req.meta.dryRun && s'.journal[id].payload == req.payload)
    && (!s'.calls[c].Begun? ==> s'.journal == s.journal && s'.calls[c].Returned? && Answers(s, req, s'.calls[c].reply))
  }

  /** What a request must look like: the metadata present and within their lengths, a user, an amount from
      one to a thousand million Stars, or a deadline that fits 32 bits and an absolute HTTP appeal URL. */
  ghost predicate Acceptable(req: Request) {
    var m := req.meta;
    && 1 <= |m.id| <= 128 && 1 <= |m.actor| <= 128 && 1 <= |m.reason| <= 1000
    && match req.op
       case GrantStars(user, amount) => user >= 1 && 1 <= amount <= 1_000_000_000
       case DebitStars(user, amount) => user >= 1 && 1 <= amount <= 1_000_000_000
       case Freeze(user, until, appeal) =>
         && user >= 1 && until.Some? && until.value < 2_147_483_648 * 1_000_000_000
         && appeal.Url? && (appeal.scheme == Http || appeal.scheme == Https) && appeal.host != "" &&
             |appeal.text| <= 2048
       case Unfreeze(user) => user >= 1
       case Other(_) => true
  }

  /** The answer to a call that runs nothing: rejected as unacceptable, or told by the row of its id, a
      conflict exactly if action, dry-run flag or request differ. */
  ghost predicate Answers(s: State, req: Request, reply: Reply) {
    && (reply == Rejected <==> !Acceptable(req))
    && (Acceptable(req) && req.meta.id in s.journal ==>
          var row := s.journal[req.meta.id];
          && (reply == Conflict <==>
              row.action != Action(req.op) || row.dryRun != req.meta.dryRun || !SameJson(row.payload, req.payload))
          && (reply != Conflict ==> reply == Replay(ReplayOf(row)))
          && (reply != Conflict && row.stored.Written? ==> reply.result == row.stored.result.(alreadyExecuted := true)))
  }

  lemma StartReplies(cfg: Config, s: State, c: nat, req: Request, now: int)
    requires c !in s.calls
    ensures Started(s, StartStep(cfg, s, c, req, now), c, req, now)
  {
  }

  /** Journalling touches no store behind the bodies, and the answer says how the body ended. */
  ghost predicate Closed(s: State, s': State, c: nat)
    requires c in s.calls && s.calls[c].Ran?
  {
    var k := s.calls[c];
    var id := k.req.meta.id;
    && A.SameStores(s, s') && c in s'.calls && s'.calls[c].Returned? && s'.calls[c].req == k.req
    && (s'.calls[c].reply.Answer? || s'.calls[c].reply.Lost?)
    && var r := s'.calls[c].reply.result;
       && r.id == id && r.action == Some(Action(k.req.op)) && r.dryRun == k.req.meta.dryRun && !r.alreadyExecuted
       && r.status == (if k.err.Some? then Failed else Completed) && r.error == k.err
       && (if k.err.Some? && k.body.message == NoNote then r.message == CommandFailed else r.message == k.body.message)
       && r.details == k.body.details + k.body.transient
       && (s'.calls[c].reply.Lost? ==> s'.journal == s.journal)
       && (s'.calls[c].reply.Answer? ==>
             && id in s'.journal && s'.journal == s.journal[id := s'.journal[id]]
             && s'.journal[id].status == r.status && s'.journal[id].error == k.err
             && s'.journal[id].stored == Written(r.(details := k.body.details)))
  }

  lemma FinishReplies(s: State, c: nat, written: bool)
    requires c in s.calls && s.calls[c].Ran?
    ensures Closed(s, FinishStep(s, c, written), c)
  {
  }

  /** The posting of a call whose ledger call succeeded. */
  function Due(c: nat, k: Call): seq<Posting> {
    if k.Ran? && k.err.None? && IsStars(k.req.op) && !k.req.meta.dryRun then [Posting(k.req.meta.id, c, k.req.op)]
        else []
  }

  /** What a debit of the user's Stars can draw on: the balance, and the starting grant if it is due. */
  function Available(cfg: Config, accounts: map<int, Account>, user: int): int {
    if user in accounts
    then accounts[user].balance + (if accounts[user].granted then 0 else cfg.grant)
    else cfg.grant
  }

  /** The error a ledger body ends with, from the balances it finds and the store calls that fail: without
      faults a debit is refused exactly if less is available than it asks for, and nothing else is. */
  ghost predicate EndsWith(cfg: Config, accounts: map<int, Account>, req: Request, fault: Fault, late: Fault,
                           err: Option<Failure>) {
    if fault == EarlyFault then err == Some(LookupFailed)
    else if req.meta.dryRun then err == None
    else if fault == LateFault then err == Some(if IsStars(req.op) then LedgerFailed else OtherFailure)
    else if !req.op.DebitStars? then err == None
    else if late != NoFault then err == Some(LedgerFailed)
    else err == if Available(cfg, accounts, req.op.user) >= req.op.amount then None else Some(StarsInsufficient)
  }

  /** A ledger body posts what is due, and balances move by the posting and a starting grant alone. */
  ghost predicate LedgerDone(cfg: Config, s: State, s': State, c: nat)
    requires c in s.calls
  {
    && c in s'.calls && s'.calls[c].Ran? && s'.calls[c].req == s.calls[c].req
    && s'.ledger == s.ledger + Due(c, s'.calls[c])
    && A.Balanced(cfg.grant, s.accounts, s'.accounts, Due(c, s'.calls[c]))
  }

  lemma LedgerStepMoves(cfg: Config, s: State, c: nat, fault: Fault, body: Body)
    requires c in s.calls && s.calls[c].Begun? && !IsFreeze(s.calls[c].req.op)
    ensures var s' := LedgerStep(cfg, s, c, fault, body);
            && c in s'.calls && s'.calls[c].req == s.calls[c].req
            && (s'.calls[c].Ran? ||
                (s'.calls[c].Granted? && s'.calls[c].req.op.DebitStars? && !s'.calls[c].req.meta.dryRun))
            && s'.ledger == s.ledger + Due(c, s'.calls[c])
            && A.Balanced(cfg.grant, s.accounts, s'.accounts, Due(c, s'.calls[c]))
  {
    var bare := s.(ledger := []);
    assert A.Balanced(cfg.grant, s.accounts, s.accounts, []) by {
      assert forall u :: A.Conserved(cfg.grant, s.accounts, s.accounts, [], u);
    }
    A.LedgerStepPosts(cfg, s.accounts, bare, c, fault, body);
    var s' := LedgerStep(cfg, s, c, fault, body);
    assert LedgerStep(cfg, bare, c, fault, body).accounts == s'.accounts;
    assert LedgerStep(cfg, bare, c, fault, body).ledger == [] + Due(c, s'.calls[c]) == Due(c, s'.calls[c]);
  }

  lemma DebitStepMoves(cfg: Config, start: map<int, Account>, s: State, c: nat, fault: Fault, body: Body)
    requires c in s.calls && s.calls[c].Granted? && s.calls[c].req.op.DebitStars? && !s.calls[c].req.meta.dryRun
    requires A.Balanced(cfg.grant, start, s.accounts, [])
    ensures var s' := DebitStep(s, c, fault, body);
            && c in s'.calls && s'.calls[c].Ran? && s'.calls[c].req == s.calls[c].req
            && s'.ledger == s.ledger + Due(c, s'.calls[c])
            && A.Balanced(cfg.grant, start, s'.accounts, Due(c, s'.calls[c]))
  {
    var p := Posting(s.calls[c].req.meta.id, c, s.calls[c].req.op);
    A.CreditBalanced(cfg.grant, start, s.accounts, [], p);
    assert [] + [p] == [p];
  }

  /** The body in two acts, the second doing nothing unless a debit is to follow its grant. */
  lemma LedgerBodyRuns(cfg: Config, s: State, c: nat, fault: Fault, late: Fault, body: Body)
    requires c in s.calls && s.calls[c].Begun? && !IsFreeze(s.calls[c].req.op)
    ensures var first := LedgerStep(cfg, s, c, fault, body);
            && c in first.calls
            && var ran := if first.calls[c].Granted? then DebitStep(first, c, late, body) else first;
            && Steps(cfg, s, [Exec(c, fault, body), Exec(c, late, body)]) == ran && LedgerDone(cfg, s, ran, c)
            && EndsWith(cfg, s.accounts, s.calls[c].req, fault, late, ran.calls[c].err)
  {
    var first := LedgerStep(cfg, s, c, fault, body);
    LedgerStepMoves(cfg, s, c, fault, body);
    F.TwoSteps(cfg, s, Exec(c, fault, body), Exec(c, late, body));
    assert Step(cfg, s, Exec(c, fault, body)) == first;
    if first.calls[c].Granted? {
      DebitStepMoves(cfg, s.accounts, first, c, late, body);
    }
  }

  /** A known id touches nothing and is replayed or refused; a new one ends as the balances and the store
      calls decide, posts exactly if it is a Stars command, no dry run, and its answer says completed, and
      balances move by the posting and a starting grant alone. */
  ghost predicate LedgerReply(cfg: Config, s: State, s': State, c: nat, req: Request, fault: Fault, late: Fault,
                              reply: Reply) {
    var id := req.meta.id;
    if !Acceptable(req) || id in s.journal
    then Answers(s, req, reply) && s'.journal == s.journal && A.SameStores(s, s')
    else
      && (reply.Answer? || reply.Lost?)
      && (reply.result.status == Completed <==> reply.result.error == None)
      && EndsWith(cfg, s.accounts, req, fault, late, reply.result.error)
      && var done := reply.result.status == Completed && IsStars(req.op) && !req.meta.dryRun;
         var posted := if done then [Posting(id, c, req.op)] else [];
         s'.ledger == s.ledger + posted && A.Balanced(cfg.grant, s.accounts, s'.accounts, posted)
  }

  lemma LedgerReplies(cfg: Config, s0: State, s1: State, s2: State, s3: State, c: nat, req: Request, now: int,
                      fault: Fault, late: Fault)
    requires Started(s0, s1, c, req, now) && s1.calls[c].Begun? && LedgerDone(cfg, s1, s2, c) && Closed(s2, s3, c)
    requires EndsWith(cfg, s1.accounts, req, fault, late, s2.calls[c].err)
    ensures LedgerReply(cfg, s0, s3, c, req, fault, late, s3.calls[c].reply)
  {
  }

  /** The start a freeze keeps or sets: that of the frozen row found, else the clock. */
  function StartOf(rows: map<int, FreezeRow>, user: int, now: int): Option<int> {
    if user in rows && rows[user].frozen then rows[user].since else Some(now)
  }

  /** Whether a freeze command without store faults goes through: an unfreeze always; a freeze if its
      deadline is after the clock and after the start it keeps and, unless it is a dry run, if the table
      takes the row, whose times are cut to the microsecond. */
  ghost predicate GoesThrough(rows: map<int, FreezeRow>, req: Request, now: int)
    requires IsFreeze(req.op)
  {
    req.op.Freeze? ==>
      var start := StartOf(rows, req.op.user, now);
      && req.op.until.Some? && start.Some? && req.op.until.value > now && req.op.until.value > start.value
      && (!req.meta.dryRun ==>
            var t := req.op.until.value - req.op.until.value % 1000;
            && t > start.value - start.value % 1000 && t <= 2_147_483_647 * 1_000_000_000
            && req.op.appeal != NoUrl && 1 <= |req.op.appeal.text| <= 2048)
  }

  /** A freeze body ends without error exactly if no store call failed and it goes through; then, unless it
      is a dry run, the user's row says what was asked for, from the start it keeps. */
  ghost predicate FreezeDone(s: State, s': State, c: nat, now: int, failed: bool, fault: Fault)
    requires c in s.calls && IsFreeze(s.calls[c].req.op)
  {
    var req := s.calls[c].req;
    var user := req.op.user;
    && c in s'.calls && s'.calls[c].Ran? && s'.calls[c].req == req
    && A.SameLedger(s, s')
    && (s'.calls[c].err.None? <==>
        !failed && (fault == NoFault || req.meta.dryRun) && GoesThrough(s.rows, req, now))
    && if s'.calls[c].err.None? && !req.meta.dryRun
       then user in s'.rows && s'.rows == s.rows[user := s'.rows[user]] && RowAsked(s.rows, s'.rows[user], req.op, now)
       else s'.rows == s.rows
  }

  ghost predicate RowAsked(rows: map<int, FreezeRow>, row: FreezeRow, op: Op, now: int)
    requires IsFreeze(op)
  {
    F.Tells(row, op) &&
    (op.Freeze? ==>
       var start := StartOf(rows, op.user, now);
       start.Some? && row.since == Some(start.value - start.value % 1000))
  }

  lemma LoadDone(s: State, c: nat, failed: bool)
    requires c in s.calls && s.calls[c].Begun? && IsFreeze(s.calls[c].req.op)
    ensures var s', k := LoadStep(s, c, failed), s.calls[c];
            && A.SameStores(s, s') && c in s'.calls && s'.calls[c].req == s.calls[c].req
            && (s'.calls[c].Loaded? || (s'.calls[c].Ran? && s'.calls[c].err.Some?))
            && (s'.calls[c].Loaded? <==>
                !failed && (k.req.op.Freeze? ==> k.req.op.until.Some? && k.req.op.until.value > k.now))
            && (s'.calls[c].Loaded? ==>
                  && s'.calls[c].now == k.now
                  && s'.calls[c].prev == if k.req.op.user in s.rows then Some(s.rows[k.req.op.user]) else None)
  {
  }

  lemma WriteDone(s: State, c: nat, fault: Fault, body: Body)
    requires c in s.calls && s.calls[c].Loaded? && IsFreeze(s.calls[c].req.op) && Shape(s.calls[c].req.op)
    requires s.calls[c].prev ==
              (if s.calls[c].req.op.user in s.rows then Some(s.rows[s.calls[c].req.op.user]) else None)
    requires s.calls[c].req.op.Freeze? ==> s.calls[c].req.op.until.value > s.calls[c].now
    ensures FreezeDone(s, WriteStep(s, c, fault, body), c, s.calls[c].now, false, fault)
  {
  }

  lemma FreezeBodyRuns(cfg: Config, s: State, c: nat, failed: bool, fault: Fault, body: Body)
    requires c in s.calls && s.calls[c].Begun? && IsFreeze(s.calls[c].req.op) && Shape(s.calls[c].req.op)
    ensures var loaded := LoadStep(s, c, failed);
            && c in loaded.calls
            && var ran := if loaded.calls[c].Loaded? then WriteStep(loaded, c, fault, body) else loaded;
            && Steps(cfg, s, [Load(c, failed), Exec(c, fault, body)]) == ran
            && FreezeDone(s, ran, c, s.calls[c].now, failed, fault)
  {
    var loaded := LoadStep(s, c, failed);
    F.TwoSteps(cfg, s, Load(c, failed), Exec(c, fault, body));
    assert Step(cfg, s, Load(c, failed)) == loaded;
    LoadDone(s, c, failed);
    if loaded.calls[c].Loaded? {
      WriteDone(loaded, c, fault, body);
    }
  }

  /** A known id touches nothing and is replayed or refused. A new command completes exactly if no store
      call failed and it goes through; the row changes exactly if it completed and was no dry run, and then
      says what was asked for. No balance changes. */
  ghost predicate FreezeReply(s: State, s': State, req: Request, now: int, failed: bool, fault: Fault, reply: Reply)
    requires IsFreeze(req.op)
  {
    var user := req.op.user;
    && A.SameLedger(s, s')
    && if !Acceptable(req) || req.meta.id in s.journal
       then Answers(s, req, reply) && s'.journal == s.journal && A.SameStores(s, s')
       else
         && (reply.Answer? || reply.Lost?)
         && (reply.result.status == Completed <==>
             !failed && (fault == NoFault || req.meta.dryRun) && GoesThrough(s.rows, req, now))
         && if reply.result.status == Completed && !req.meta.dryRun
            then && user in s'.rows && s'.rows == s.rows[user := s'.rows[user]] &&
                RowAsked(s.rows, s'.rows[user], req.op, now)
                 && (F.RowInv(s') ==> F.CanSendMessages(s'.rows, user) == if req.op.Freeze? then F.UserFrozen
                     else F.MaySend)
            else s'.rows == s.rows
  }

  lemma FreezeReplies(s0: State, s1: State, s2: State, s3: State, c: nat, req: Request, now: int, failed: bool,
                      fault: Fault)
    requires IsFreeze(req.op) && Started(s0, s1, c, req, now) && s1.calls[c].Begun?
    requires FreezeDone(s1, s2, c, now, failed, fault) && Closed(s2, s3, c)
    ensures FreezeReply(s0, s3, req, now, failed, fault, s3.calls[c].reply)
  {
  }
}
