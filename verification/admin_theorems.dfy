/** What every interleaving of admin commands keeps: at most one run per command id, stable
    replays, and conservation of the Stars ledger. */
module AdminTheorems {
  import opened Common
  import opened AdminJournal
  import opened JsonValues

  // ---- At most one run per id -------------------------------------------------------------

  ghost predicate Distinct<T>(s: seq<T>) {
    forall i, j :: 0 <= i < j < |s| ==> s[i] != s[j]
  }

  /** The journal row an in-flight call holds, and whether its body has started. */
  ghost predicate Holds(cfg: Config, s: State, k: Call) {
    var id := k.req.meta.id;
    && Shape(k.req.op)
    && id in s.journal
    && s.journal[id] == Entry(id, Action(k.req.op), k.req.meta.dryRun, k.req.payload, Running, cfg.blank, None)
    && (k.Begun? <==> id !in s.bodies)
    && (k.Loaded? ==> IsFreeze(k.req.op))
    && (k.Granted? ==> k.req.op.DebitStars? && !k.req.meta.dryRun)
  }

  ghost predicate Settled(e: Entry) {
    e.status != Running ==> e.stored.Written? && e.stored.result.status == e.status && !e.stored.result.alreadyExecuted
  }

  ghost predicate Inv(cfg: Config, s: State) {
    && (forall c :: c in s.calls && InFlight(s.calls[c]) ==> Holds(cfg, s, s.calls[c]))
    && (forall c, d :: c in s.calls && d in s.calls && c != d && InFlight(s.calls[c]) && InFlight(s.calls[d]) ==>
          s.calls[c].req.meta.id != s.calls[d].req.meta.id)
    && Distinct(s.bodies)
    && (forall id :: id in s.bodies ==> id in s.journal)
    && (forall id :: id in s.journal ==> s.journal[id].id == id && Settled(s.journal[id]))
    && (forall c :: c in s.calls ==> Answered(s, s.calls[c]))
  }

  /** An answered call was journalled with the answer less its transient details. */
  ghost predicate Answered(s: State, k: Call) {
    k.Returned? && k.reply.Answer? ==>
      var id := k.req.meta.id;
      && id in s.journal && s.journal[id].status != Running && s.journal[id].stored.Written?
      && k.reply.result == var r := s.journal[id].stored.result; r.(details := r.details + k.reply.transient)
  }

  /** Rows only appear, keep the request they were begun with, and never change once finished;
      calls stay, each with its request. */
  ghost predicate Extends(s: State, s': State) {
    && (forall c :: c in s.calls ==> c in s'.calls && s'.calls[c].req == s.calls[c].req)
    && forall id :: id in s.journal ==>
      && id in s'.journal
      && s'.journal[id].action == s.journal[id].action
      && s'.journal[id].dryRun == s.journal[id].dryRun
      && s'.journal[id].payload == s.journal[id].payload
      && (s.journal[id].status != Running ==> s'.journal[id] == s.journal[id])
  }

  /** Ending a call, or never admitting it, leaves everything else in place. */
  lemma EndCallKeeps(cfg: Config, s: State, c: nat, k: Call)
    requires Inv(cfg, s) && !InFlight(k) && Answered(s, k) && (c in s.calls ==> k.req == s.calls[c].req)
    ensures Inv(cfg, s.(calls := s.calls[c := k])) && Extends(s, s.(calls := s.calls[c := k]))
  {
    var s' := s.(calls := s.calls[c := k]);
    forall d | d in s'.calls && InFlight(s'.calls[d])
      ensures Holds(cfg, s', s'.calls[d])
    {
      assert Holds(cfg, s, s.calls[d]);
    }
    forall d | d in s'.calls
      ensures Answered(s', s'.calls[d])
    {
      if d != c {
        assert Answered(s, s.calls[d]);
      }
    }
  }

  /** A new journal row and the call that owns it. */
  lemma BeginKeeps(cfg: Config, s: State, c: nat, req: Request, now: int)
    requires Inv(cfg, s) && c !in s.calls && req.meta.id !in s.journal && Shape(req.op)
    ensures var e := Entry(req.meta.id, Action(req.op), req.meta.dryRun, req.payload, Running, cfg.blank, None);
            var s' := s.(journal := s.journal[req.meta.id := e], calls := s.calls[c := Begun(req, now)]);
            Inv(cfg, s') && Extends(s, s')
  {
  }

  lemma StartKeeps(cfg: Config, s: State, c: nat, req: Request, now: int)
    requires Inv(cfg, s) && c !in s.calls
    ensures Inv(cfg, StartStep(cfg, s, c, req, now)) && Extends(s, StartStep(cfg, s, c, req, now))
  {
    var s' := StartStep(cfg, s, c, req, now);
    if Shape(req.op) && ValidMeta(req.meta) && req.meta.id !in s.journal {
      BeginKeeps(cfg, s, c, req, now);
    } else {
      EndCallKeeps(cfg, s, c, s'.calls[c]);
    }
  }

  /** A body step moves one call forward and touches neither journal rows nor other calls. */
  ghost predicate BodyMoved(s: State, c: nat, s': State)
    requires c in s.calls
  {
    var k := s.calls[c];
    && s'.journal == s.journal
    && s'.calls.Keys == s.calls.Keys
    && (forall d :: d in s.calls && d != c ==> s'.calls[d] == s.calls[d])
    && s'.calls[c].req == k.req
    && (if k.Begun? then s'.bodies == s.bodies + [k.req.meta.id] else s'.bodies == s.bodies)
    && ( || s'.calls[c].Ran?
         || (s'.calls[c].Loaded? && IsFreeze(k.req.op))
         || (s'.calls[c].Granted? && k.req.op.DebitStars? && !k.req.meta.dryRun))
  }

  lemma BodyKeeps(cfg: Config, s: State, c: nat, s': State)
    requires Inv(cfg, s) && c in s.calls && InFlight(s.calls[c]) && !s.calls[c].Ran?
    requires BodyMoved(s, c, s')
    ensures Inv(cfg, s') && Extends(s, s')
  {
  }

  /** Finishing writes one row, the one its call holds. */
  ghost predicate RowFinished(cfg: Config, s: State, c: nat, s': State)
    requires c in s.calls
  {
    var k := s.calls[c];
    var id := k.req.meta.id;
    && s'.bodies == s.bodies
    && id in s.journal && id in s'.journal && s'.journal == s.journal[id := s'.journal[id]]
    && s'.journal[id].status != Running && s'.journal[id].id == id && Settled(s'.journal[id])
    && s'.journal[id] == s.journal[id].(status := s'.journal[id].status, stored := s'.journal[id].stored,
        error := s'.journal[id].error)
    && c in s'.calls && s'.calls == s.calls[c := s'.calls[c]]
    && !InFlight(s'.calls[c]) && s'.calls[c].req == k.req && Answered(s', s'.calls[c])
  }

  lemma RowFinishedKeeps(cfg: Config, s: State, c: nat, s': State)
    requires Inv(cfg, s) && c in s.calls && s.calls[c].Ran? && RowFinished(cfg, s, c, s')
    ensures Inv(cfg, s') && Extends(s, s')
  {
    assert Holds(cfg, s, s.calls[c]);
    forall d | d in s'.calls && InFlight(s'.calls[d])
      ensures Holds(cfg, s', s'.calls[d])
    {
      assert Holds(cfg, s, s.calls[d]);
    }
    forall d | d in s'.calls
      ensures Answered(s', s'.calls[d])
    {
      if d != c {
        assert Answered(s, s.calls[d]);
      }
    }
  }

  lemma FinishKeeps(cfg: Config, s: State, c: nat, written: bool)
    requires Inv(cfg, s) && c in s.calls && s.calls[c].Ran?
    ensures Inv(cfg, FinishStep(s, c, written)) && Extends(s, FinishStep(s, c, written))
  {
    var s' := FinishStep(s, c, written);
    assert Holds(cfg, s, s.calls[c]);
    if written {
      RowFinishedKeeps(cfg, s, c, s');
    } else {
      EndCallKeeps(cfg, s, c, s'.calls[c]);
    }
  }

  lemma LoadMoves(s: State, c: nat, failed: bool)
    requires c in s.calls && s.calls[c].Begun? && IsFreeze(s.calls[c].req.op)
    ensures BodyMoved(s, c, LoadStep(s, c, failed)) && SameLedger(s, LoadStep(s, c, failed))
  {
  }

  lemma LedgerMoves(cfg: Config, s: State, c: nat, fault: Fault, body: Body)
    requires c in s.calls && s.calls[c].Begun? && !IsFreeze(s.calls[c].req.op)
    ensures BodyMoved(s, c, LedgerStep(cfg, s, c, fault, body))
  {
  }

  lemma WriteMoves(s: State, c: nat, fault: Fault, body: Body)
    requires c in s.calls && s.calls[c].Loaded? && IsFreeze(s.calls[c].req.op)
    ensures WriteStep(s, c, fault, body) == s || BodyMoved(s, c, WriteStep(s, c, fault, body))
    ensures SameLedger(s, WriteStep(s, c, fault, body))
  {
  }

  lemma DebitMoves(s: State, c: nat, fault: Fault, body: Body)
    requires c in s.calls && s.calls[c].Granted? && s.calls[c].req.op.DebitStars? && !s.calls[c].req.meta.dryRun
    ensures BodyMoved(s, c, DebitStep(s, c, fault, body))
  {
  }

  lemma ExecKeeps(cfg: Config, s: State, c: nat, fault: Fault, body: Body)
    requires Inv(cfg, s) && c in s.calls && InFlight(s.calls[c]) && !s.calls[c].Ran?
    requires s.calls[c].Begun? ==> !IsFreeze(s.calls[c].req.op)
    ensures var s' := Step(cfg, s, Exec(c, fault, body)); Inv(cfg, s') && Extends(s, s')
  {
    assert Holds(cfg, s, s.calls[c]);
    match s.calls[c]
    case Begun(_, _) =>
      LedgerMoves(cfg, s, c, fault, body);
      BodyKeeps(cfg, s, c, LedgerStep(cfg, s, c, fault, body));
    case Loaded(_, _, _) =>
      WriteMoves(s, c, fault, body);
      if WriteStep(s, c, fault, body) != s {
        BodyKeeps(cfg, s, c, WriteStep(s, c, fault, body));
      }
    case Granted(_) =>
      DebitMoves(s, c, fault, body);
      BodyKeeps(cfg, s, c, DebitStep(s, c, fault, body));
  }

  lemma {:induction false} StepKeeps(cfg: Config, s: State, a: Act)
    requires Inv(cfg, s)
    ensures Inv(cfg, Step(cfg, s, a)) && Extends(s, Step(cfg, s, a))
  {
    match a
    case Start(c, req, now) =>
      if c !in s.calls {
        StartKeeps(cfg, s, c, req, now);
      }
    case Load(c, failed) =>
      if c in s.calls && s.calls[c].Begun? && IsFreeze(s.calls[c].req.op) {
        LoadMoves(s, c, failed);
        BodyKeeps(cfg, s, c, LoadStep(s, c, failed));
      }
    case Exec(c, fault, body) =>
      if c in s.calls && InFlight(s.calls[c]) && !s.calls[c].Ran? &&
          (s.calls[c].Begun? ==> !IsFreeze(s.calls[c].req.op)) {
        ExecKeeps(cfg, s, c, fault, body);
      }
    case Finish(c, written) =>
      if c in s.calls && s.calls[c].Ran? {
        FinishKeeps(cfg, s, c, written);
      }
    case Crash(c) =>
      if c in s.calls && InFlight(s.calls[c]) {
        EndCallKeeps(cfg, s, c, Dead(s.calls[c].req));
      }
  }

  lemma ExtendsTransitive(s: State, t: State, u: State)
    requires Extends(s, t) && Extends(t, u)
    ensures Extends(s, u)
  {
  }

  lemma {:induction false} StepsKeep(cfg: Config, s: State, acts: seq<Act>)
    requires Inv(cfg, s)
    ensures Inv(cfg, Steps(cfg, s, acts)) && Extends(s, Steps(cfg, s, acts))
    decreases |acts|
  {
    if acts != [] {
      var next := Step(cfg, s, acts[0]);
      StepKeeps(cfg, s, acts[0]);
      StepsKeep(cfg, next, acts[1..]);
      ExtendsTransitive(s, next, Steps(cfg, next, acts[1..]));
    }
  }

  lemma Reachable(cfg: Config, base: map<int, Account>, acts: seq<Act>)
    ensures Inv(cfg, Run(cfg, base, acts))
  {
    StepsKeep(cfg, Initial(base), acts);
  }

  /** Over every interleaving of calls, retries, lost answers and crashes, no body runs twice:
      the starts of bodies carry pairwise distinct command ids. */
  lemma BodyRunsAtMostOnce(cfg: Config, base: map<int, Account>, acts: seq<Act>, i: nat, j: nat)
    requires i < j < |Run(cfg, base, acts).bodies|
    ensures Run(cfg, base, acts).bodies[i] != Run(cfg, base, acts).bodies[j]
  {
    Reachable(cfg, base, acts);
  }

  /** A call for an id begun earlier in the run: it runs no body and changes no store; it is
      refused exactly when action, dry-run flag or request differ from what was begun then, and
      otherwise answered from the journal as it is now. */
  lemma LaterCall(cfg: Config, begun: State, rest: seq<Act>, c: nat, req: Request, now: int)
    requires Inv(cfg, begun) && req.meta.id in begun.journal
    requires ValidMeta(req.meta) && Shape(req.op)
    requires c !in Steps(cfg, begun, rest).calls
    ensures var row := begun.journal[req.meta.id];
            var s := Steps(cfg, begun, rest);
            var s' := StartStep(cfg, s, c, req, now);
            && s' == s.(calls := s'.calls)
            && s'.calls == s.calls[c := s'.calls[c]] && s'.calls[c].Returned?
            && req.meta.id in s.journal
            && (s'.calls[c].reply == Conflict <==>
                row.action != Action(req.op) || row.dryRun != req.meta.dryRun || !SameJson(row.payload, req.payload))
            && (s'.calls[c].reply != Conflict ==> s'.calls[c].reply == Replay(ReplayOf(s.journal[req.meta.id])))
            && (row.status != Running ==> s.journal[req.meta.id] == row)
  {
    StepsKeep(cfg, begun, rest);
  }

  /** With integers up to 2^53 on both sides a later call is replayed exactly if action, flag and request
      are those the id was begun with. */
  lemma LaterCallSafe(cfg: Config, begun: State, rest: seq<Act>, c: nat, req: Request, now: int)
    requires Inv(cfg, begun) && req.meta.id in begun.journal
    requires ValidMeta(req.meta) && Shape(req.op)
    requires c !in Steps(cfg, begun, rest).calls
    requires Safe(begun.journal[req.meta.id].payload) && Safe(req.payload)
    ensures var row := begun.journal[req.meta.id];
            var k := StartStep(cfg, Steps(cfg, begun, rest), c, req, now).calls[c];
            && k.Returned? && (k.reply.Replay? || k.reply == Conflict)
            && (k.reply.Replay? <==>
                row.action == Action(req.op) && row.dryRun == req.meta.dryRun && row.payload == req.payload)
  {
    LaterCall(cfg, begun, rest, c, req, now);
    SameJsonExact(begun.journal[req.meta.id].payload, req.payload);
  }

  /** The action names tell the modelled commands apart, and the others by their own names. */
  lemma ActionTells(a: Op, b: Op)
    ensures Action(a) == GrantStarsAction <==> a.GrantStars?
    ensures Action(a) == DebitStarsAction <==> a.DebitStars?
    ensures Action(a) == SetAccountFrozenAction <==> a.Freeze? || a.Unfreeze?
    ensures a.Other? && b.Other? ==> (Action(a) == Action(b) <==> a.name == b.name)
  {
  }

  /** A retry of an answered command, however much later, replays the first answer: the same
      result marked AlreadyExecuted, without the transient details, and never as an error. */
  lemma {:induction false} ReplayRepeatsAnswer(cfg: Config, first: State, rest: seq<Act>, done: Call, c: nat,
      req: Request, now: int)
    requires Inv(cfg, first) && (exists d :: d in first.calls && first.calls[d] == done)
    requires done.Returned? && done.reply.Answer? && done.req.meta.id == req.meta.id
    requires ValidMeta(req.meta) && Shape(req.op)
    requires c !in Steps(cfg, first, rest).calls
    requires req.meta.id in first.journal ==> SameCommand(first.journal[req.meta.id], req)
    ensures var k := StartStep(cfg, Steps(cfg, first, rest), c, req, now).calls[c];
            && k.Returned? && var reply := k.reply;
            && reply.Replay? && reply.result.alreadyExecuted
            && done.reply.result ==
                reply.result.(alreadyExecuted := false, details := reply.result.details + done.reply.transient)
  {
    assert Answered(first, done);
    assert Settled(first.journal[req.meta.id]);
    LaterCall(cfg, first, rest, c, req, now);
  }

  /** What a replay of a command still running reports. It names the command and its running
      status exactly when the store left the result column empty; the {} that PostgreSQL stores
      decodes as an empty result instead. */
  lemma RunningReplay(cfg: Config, s: State, k: Call)
    requires Inv(cfg, s) && InFlight(k) && (exists c :: c in s.calls && s.calls[c] == k)
    requires !cfg.blank.Written?
    ensures var r := ReplayOf(s.journal[k.req.meta.id]);
            && r.alreadyExecuted
            && (r.status == Running && r.id == k.req.meta.id <==> cfg.blank == Empty)
            && (cfg.blank == Empty ==>
                  && r.action == Some(Action(k.req.op)) && r.dryRun == k.req.meta.dryRun && r.error == None
                  && r.message == CommandAlreadyExists && r.details == map[])
            && (cfg.blank == Braces ==>
                  r == CommandResult("", None, Zero, true, false, NoNote, map[], None))
  {
  }

  // ---- Conservation of Stars --------------------------------------------------------------

  /** What a ledger command asks to add to a user's balance. */
  ghost function Delta(op: Op, user: int): int {
    match op
    case GrantStars(u, amount) => if u == user then amount else 0
    case DebitStars(u, amount) => if u == user then -amount else 0
    case _ => 0
  }

  /** Grants minus debits of a user over the postings. */
  ghost function Posted(ledger: seq<Posting>, user: int): int {
    if ledger == [] then 0
    else Posted(ledger[..|ledger| - 1], user) + Delta(ledger[|ledger| - 1].op, user)
  }

  lemma PostedAppend(ledger: seq<Posting>, p: Posting, user: int)
    ensures Posted(ledger + [p], user) == Posted(ledger, user) + Delta(p.op, user)
  {
  }

  /** A user's balance accounts for the start, the starting grant if it came, and the postings. */
  ghost predicate Conserved(grant: nat, base: map<int, Account>, accounts: map<int, Account>, ledger: seq<Posting>,
                            user: int) {
    var was, now := BalanceOf(base, user), BalanceOf(accounts, user);
    && (was.granted ==> now.granted)
    && now.balance == was.balance + (if now.granted && !was.granted then grant else 0) + Posted(ledger, user)
  }

  ghost predicate Balanced(grant: nat, base: map<int, Account>, accounts: map<int, Account>, ledger: seq<Posting>) {
    forall user :: Conserved(grant, base, accounts, ledger, user)
  }

  lemma GrantBalanced(grant: nat, base: map<int, Account>, accounts: map<int, Account>, ledger: seq<Posting>, user: int)
    requires Balanced(grant, base, accounts, ledger)
    ensures Balanced(grant, base, EnsureGrant(accounts, user, grant), ledger)
  {
    forall u
      ensures Conserved(grant, base, EnsureGrant(accounts, user, grant), ledger, u)
    {
      assert Conserved(grant, base, accounts, ledger, u);
    }
  }

  lemma CreditBalanced(grant: nat, base: map<int, Account>, accounts: map<int, Account>, ledger: seq<Posting>,
                       p: Posting)
    requires Balanced(grant, base, accounts, ledger) && (p.op.GrantStars? || p.op.DebitStars?)
    ensures Balanced(grant, base, Credit(accounts, p.op.user, Delta(p.op, p.op.user)), ledger + [p])
  {
    forall u
      ensures Conserved(grant, base, Credit(accounts, p.op.user, Delta(p.op, p.op.user)), ledger + [p], u)
    {
      CreditConserved(grant, base, accounts, ledger, p, u);
    }
  }

  lemma {:induction false} CreditConserved(grant: nat, base: map<int, Account>, accounts: map<int, Account>,
                                           ledger: seq<Posting>, p: Posting, u: int)
    requires Conserved(grant, base, accounts, ledger, u) && (p.op.GrantStars? || p.op.DebitStars?)
    ensures Conserved(grant, base, Credit(accounts, p.op.user, Delta(p.op, p.op.user)), ledger + [p], u)
  {
    PostedAppend(ledger, p, u);
  }

  /** A posting is the effect its own started, journalled, non-dry-run command asked for. */
  ghost predicate Posts(s: State, p: Posting) {
    && p.id in s.bodies && p.id in s.journal && !s.journal[p.id].dryRun
    && p.call in s.calls && s.calls[p.call].req.meta.id == p.id && s.calls[p.call].req.op == p.op
  }

  ghost predicate HasPosting(ledger: seq<Posting>, id: string) {
    exists i :: 0 <= i < |ledger| && ledger[i].id == id
  }

  /** A command in flight has its posting exactly once its ledger call has succeeded. */
  ghost predicate CallPosted(s: State, k: Call) {
    InFlight(k) ==>
      (HasPosting(s.ledger, k.req.meta.id) <==> k.Ran? && k.err.None? && IsStars(k.req.op) && !k.req.meta.dryRun)
  }

  predicate StarsRow(e: Entry) {
    (e.action == GrantStarsAction || e.action == DebitStarsAction) && !e.dryRun
  }

  /** A Stars command journalled as completed has a posting, one journalled as failed has none. */
  ghost predicate RowPosted(s: State, e: Entry) {
    && (e.status == Completed && StarsRow(e) ==> HasPosting(s.ledger, e.id))
    && (e.status == Failed ==> !HasPosting(s.ledger, e.id))
    && e.status != Zero
  }

  /** Balances and postings agree, and the postings are those of distinct commands. */
  ghost predicate PostingInv(cfg: Config, base: map<int, Account>, s: State) {
    && Balanced(cfg.grant, base, s.accounts, s.ledger)
    && (forall i, j :: 0 <= i < j < |s.ledger| ==> s.ledger[i].id != s.ledger[j].id)
    && (forall i :: 0 <= i < |s.ledger| ==> Posts(s, s.ledger[i]))
  }

  /** Calls and rows agree with the postings. */
  ghost predicate PostedInv(s: State) {
    && (forall c :: c in s.calls ==> CallPosted(s, s.calls[c]))
    && (forall id :: id in s.journal ==> RowPosted(s, s.journal[id]))
  }

  ghost predicate LedgerInv(cfg: Config, base: map<int, Account>, s: State) {
    PostingInv(cfg, base, s) && PostedInv(s)
  }

  /** Steps other than ledger calls keep the postings. */
  lemma PostingFrame(cfg: Config, base: map<int, Account>, s: State, s': State)
    requires PostingInv(cfg, base, s) && Extends(s, s') && SameLedger(s, s') && s.bodies <= s'.bodies
    ensures PostingInv(cfg, base, s')
  {
    forall i | 0 <= i < |s'.ledger|
      ensures Posts(s', s'.ledger[i])
    {
      assert Posts(s, s.ledger[i]);
    }
  }

  ghost predicate SameLedger(s: State, s': State) {
    s'.accounts == s.accounts && s'.ledger == s.ledger
  }

  /** What a ledger store call may do: at most one posting, of the command in call c, and the call then
      says so. */
  ghost predicate PostsOnce(s: State, c: nat, s': State)
    requires c in s.calls && c in s'.calls
  {
    var k := s.calls[c];
    var done := s'.calls[c].Ran? && s'.calls[c].err.None? && IsStars(k.req.op) && !k.req.meta.dryRun;
    s'.ledger == if done then s.ledger + [Posting(k.req.meta.id, c, k.req.op)] else s.ledger
  }

  lemma LedgerStepPosts(cfg: Config, base: map<int, Account>, s: State, c: nat, fault: Fault, body: Body)
    requires Balanced(cfg.grant, base, s.accounts, s.ledger)
    requires c in s.calls && s.calls[c].Begun? && !IsFreeze(s.calls[c].req.op)
    ensures var s' := LedgerStep(cfg, s, c, fault, body);
            Balanced(cfg.grant, base, s'.accounts, s'.ledger) && c in s'.calls && PostsOnce(s, c, s')
  {
    var op, id := s.calls[c].req.op, s.calls[c].req.meta.id;
    if op.GrantStars? {
      CreditBalanced(cfg.grant, base, s.accounts, s.ledger, Posting(id, c, op));
    } else if op.DebitStars? {
      GrantBalanced(cfg.grant, base, s.accounts, s.ledger, op.user);
    }
  }

  lemma DebitStepPosts(cfg: Config, base: map<int, Account>, s: State, c: nat, fault: Fault, body: Body)
    requires Inv(cfg, s) && Balanced(cfg.grant, base, s.accounts, s.ledger)
    requires c in s.calls && s.calls[c].Granted?
    ensures var s' := DebitStep(s, c, fault, body);
            Balanced(cfg.grant, base, s'.accounts, s'.ledger) && c in s'.calls && PostsOnce(s, c, s')
  {
    assert Holds(cfg, s, s.calls[c]);
    CreditBalanced(cfg.grant, base, s.accounts, s.ledger, Posting(s.calls[c].req.meta.id, c, s.calls[c].req.op));
  }

  lemma PostingAdded(ledger: seq<Posting>, p: Posting)
    ensures forall id :: HasPosting(ledger + [p], id) <==> HasPosting(ledger, id) || id == p.id
  {
    forall id
      ensures HasPosting(ledger + [p], id) <==> HasPosting(ledger, id) || id == p.id
    {
      if HasPosting(ledger, id) {
        var i :| 0 <= i < |ledger| && ledger[i].id == id;
        assert (ledger + [p])[i].id == id;
      }
      assert (ledger + [p])[|ledger|] == p;
    }
  }

  /** The body of one call moves on, posting at most once. */
  lemma PostingsGrow(cfg: Config, base: map<int, Account>, s: State, s': State, c: nat)
    requires Inv(cfg, s) && LedgerInv(cfg, base, s) && c in s.calls && InFlight(s.calls[c]) && !s.calls[c].Ran?
    requires Balanced(cfg.grant, base, s'.accounts, s'.ledger) && BodyMoved(s, c, s') && PostsOnce(s, c, s')
    ensures LedgerInv(cfg, base, s')
  {
    assert Holds(cfg, s, s.calls[c]) && CallPosted(s, s.calls[c]);
    PostedGrows(cfg, s, s', c);
    forall i | 0 <= i < |s'.ledger|
      ensures Posts(s', s'.ledger[i])
    {
      if i < |s.ledger| {
        assert Posts(s, s.ledger[i]);
      }
    }
  }

  lemma PostedGrows(cfg: Config, s: State, s': State, c: nat)
    requires Inv(cfg, s) && PostedInv(s) && c in s.calls && InFlight(s.calls[c]) && !s.calls[c].Ran?
    requires BodyMoved(s, c, s') && PostsOnce(s, c, s')
    ensures PostedInv(s')
  {
    var k := s.calls[c];
    assert Holds(cfg, s, k) && CallPosted(s, k);
    PostingAdded(s.ledger, Posting(k.req.meta.id, c, k.req.op));
    forall d | d in s'.calls
      ensures CallPosted(s', s'.calls[d])
    {
      assert CallPosted(s, s.calls[d]);
    }
    forall id | id in s'.journal
      ensures RowPosted(s', s'.journal[id])
    {
      assert RowPosted(s, s.journal[id]);
    }
  }

  /** A call that is answered at once, or ends without journalling. */
  lemma EndConserves(cfg: Config, base: map<int, Account>, s: State, c: nat, k: Call)
    requires Inv(cfg, s) && LedgerInv(cfg, base, s) && !InFlight(k) && Answered(s, k)
    requires c in s.calls ==> k.req == s.calls[c].req
    ensures LedgerInv(cfg, base, s.(calls := s.calls[c := k]))
  {
    var s' := s.(calls := s.calls[c := k]);
    EndCallKeeps(cfg, s, c, k);
    PostingFrame(cfg, base, s, s');
    forall d | d in s'.calls
      ensures CallPosted(s', s'.calls[d])
    {
      if d != c {
        assert CallPosted(s, s.calls[d]);
      }
    }
    forall id | id in s'.journal
      ensures RowPosted(s', s'.journal[id])
    {
      assert RowPosted(s, s.journal[id]);
    }
  }

  lemma BeginConserves(cfg: Config, base: map<int, Account>, s: State, c: nat, req: Request, now: int)
    requires Inv(cfg, s) && LedgerInv(cfg, base, s) && c !in s.calls && req.meta.id !in s.journal && Shape(req.op)
    ensures var e := Entry(req.meta.id, Action(req.op), req.meta.dryRun, req.payload, Running, cfg.blank, None);
            var s' := s.(journal := s.journal[req.meta.id := e], calls := s.calls[c := Begun(req, now)]);
            LedgerInv(cfg, base, s')
  {
    var e := Entry(req.meta.id, Action(req.op), req.meta.dryRun, req.payload, Running, cfg.blank, None);
    var s' := s.(journal := s.journal[req.meta.id := e], calls := s.calls[c := Begun(req, now)]);
    BeginKeeps(cfg, s, c, req, now);
    PostingFrame(cfg, base, s, s');
    assert forall i :: 0 <= i < |s.ledger| ==> Posts(s, s.ledger[i]);
    forall d | d in s'.calls
      ensures CallPosted(s', s'.calls[d])
    {
      if d != c {
        assert CallPosted(s, s.calls[d]);
      }
    }
    forall id | id in s'.journal
      ensures RowPosted(s', s'.journal[id])
    {
      if id != req.meta.id {
        assert RowPosted(s, s.journal[id]);
      }
    }
  }

  lemma StartConserves(cfg: Config, base: map<int, Account>, s: State, c: nat, req: Request, now: int)
    requires Inv(cfg, s) && LedgerInv(cfg, base, s) && c !in s.calls
    ensures LedgerInv(cfg, base, StartStep(cfg, s, c, req, now))
  {
    var s' := StartStep(cfg, s, c, req, now);
    if Shape(req.op) && ValidMeta(req.meta) && req.meta.id !in s.journal {
      BeginConserves(cfg, base, s, c, req, now);
    } else {
      EndConserves(cfg, base, s, c, s'.calls[c]);
    }
  }

  /** Journalling a finished body: the row says completed exactly if the call did. */
  lemma RowFinishedPosts(cfg: Config, s: State, c: nat, s': State)
    requires Inv(cfg, s) && PostedInv(s) && c in s.calls && s.calls[c].Ran?
    requires RowFinished(cfg, s, c, s') && SameLedger(s, s')
    requires s'.journal[s.calls[c].req.meta.id].status == if s.calls[c].err.Some? then Failed else Completed
    ensures PostedInv(s')
  {
    assert Holds(cfg, s, s.calls[c]) && CallPosted(s, s.calls[c]);
    forall d | d in s'.calls
      ensures CallPosted(s', s'.calls[d])
    {
      assert CallPosted(s, s.calls[d]);
    }
    forall id | id in s'.journal
      ensures RowPosted(s', s'.journal[id])
    {
      assert RowPosted(s, s.journal[id]);
    }
  }

  lemma FinishPosts(cfg: Config, base: map<int, Account>, s: State, c: nat, written: bool)
    requires Inv(cfg, s) && LedgerInv(cfg, base, s) && c in s.calls && s.calls[c].Ran?
    ensures LedgerInv(cfg, base, FinishStep(s, c, written))
  {
    var s' := FinishStep(s, c, written);
    assert Holds(cfg, s, s.calls[c]);
    if written {
      RowFinishedPosts(cfg, s, c, s');
      RowFinishedKeeps(cfg, s, c, s');
      PostingFrame(cfg, base, s, s');
    } else {
      EndConserves(cfg, base, s, c, s'.calls[c]);
    }
  }

  lemma LedgerConserves(cfg: Config, base: map<int, Account>, s: State, c: nat, fault: Fault, body: Body)
    requires Inv(cfg, s) && LedgerInv(cfg, base, s) && c in s.calls && s.calls[c].Begun? && !IsFreeze(s.calls[c].req.op)
    ensures LedgerInv(cfg, base, LedgerStep(cfg, s, c, fault, body))
  {
    LedgerStepPosts(cfg, base, s, c, fault, body);
    LedgerMoves(cfg, s, c, fault, body);
    PostingsGrow(cfg, base, s, LedgerStep(cfg, s, c, fault, body), c);
  }

  lemma DebitConserves(cfg: Config, base: map<int, Account>, s: State, c: nat, fault: Fault, body: Body)
    requires Inv(cfg, s) && LedgerInv(cfg, base, s) && c in s.calls && s.calls[c].Granted?
    ensures LedgerInv(cfg, base, DebitStep(s, c, fault, body))
  {
    assert Holds(cfg, s, s.calls[c]);
    DebitStepPosts(cfg, base, s, c, fault, body);
    DebitMoves(s, c, fault, body);
    PostingsGrow(cfg, base, s, DebitStep(s, c, fault, body), c);
  }

  lemma FreezeConserves(cfg: Config, base: map<int, Account>, s: State, c: nat, s': State)
    requires Inv(cfg, s) && LedgerInv(cfg, base, s) && c in s.calls && (s.calls[c].Begun? || s.calls[c].Loaded?)
    requires IsFreeze(s.calls[c].req.op) && (s' == s || BodyMoved(s, c, s')) && SameLedger(s, s')
    ensures LedgerInv(cfg, base, s')
  {
    if s' != s {
      PostingsGrow(cfg, base, s, s', c);
    }
  }

  lemma ExecConserves(cfg: Config, base: map<int, Account>, s: State, c: nat, fault: Fault, body: Body)
    requires Inv(cfg, s) && LedgerInv(cfg, base, s) && c in s.calls && InFlight(s.calls[c]) && !s.calls[c].Ran?
    requires s.calls[c].Begun? ==> !IsFreeze(s.calls[c].req.op)
    ensures LedgerInv(cfg, base, Step(cfg, s, Exec(c, fault, body)))
  {
    match s.calls[c]
    case Begun(_, _) =>
      LedgerConserves(cfg, base, s, c, fault, body);
    case Loaded(_, _, _) =>
      assert Holds(cfg, s, s.calls[c]);
      WriteMoves(s, c, fault, body);
      FreezeConserves(cfg, base, s, c, WriteStep(s, c, fault, body));
    case Granted(_) =>
      DebitConserves(cfg, base, s, c, fault, body);
  }

  lemma {:induction false} StepConserves(cfg: Config, base: map<int, Account>, s: State, a: Act)
    requires Inv(cfg, s) && LedgerInv(cfg, base, s)
    ensures LedgerInv(cfg, base, Step(cfg, s, a))
  {
    match a
    case Start(c, req, now) =>
      if c !in s.calls {
        StartConserves(cfg, base, s, c, req, now);
      }
    case Load(c, failed) =>
      if c in s.calls && s.calls[c].Begun? && IsFreeze(s.calls[c].req.op) {
        LoadMoves(s, c, failed);
        FreezeConserves(cfg, base, s, c, LoadStep(s, c, failed));
      }
    case Exec(c, fault, body) =>
      if c in s.calls && InFlight(s.calls[c]) && !s.calls[c].Ran? &&
          (s.calls[c].Begun? ==> !IsFreeze(s.calls[c].req.op)) {
        ExecConserves(cfg, base, s, c, fault, body);
      }
    case Finish(c, written) =>
      if c in s.calls && s.calls[c].Ran? {
        FinishPosts(cfg, base, s, c, written);
      }
    case Crash(c) =>
      if c in s.calls && InFlight(s.calls[c]) {
        EndConserves(cfg, base, s, c, Dead(s.calls[c].req));
      }
  }

  lemma {:induction false} StepsConserve(cfg: Config, base: map<int, Account>, s: State, acts: seq<Act>)
    requires Inv(cfg, s) && LedgerInv(cfg, base, s)
    ensures LedgerInv(cfg, base, Steps(cfg, s, acts))
    decreases |acts|
  {
    if acts != [] {
      StepKeeps(cfg, s, acts[0]);
      StepConserves(cfg, base, s, acts[0]);
      StepsConserve(cfg, base, Step(cfg, s, acts[0]), acts[1..]);
    }
  }

  /** Over every run with arbitrary retries, faults and crashes, a balance is the initial one plus
      the starting grant if it was applied meanwhile plus grants minus debits over the postings;
      the postings carry pairwise distinct command ids, none a dry run, each posting what its own
      command requested; a Stars command journalled as completed has its posting and one journalled
      as failed has none. */
  lemma StarsConserved(cfg: Config, base: map<int, Account>, acts: seq<Act>, user: int)
    ensures var s := Run(cfg, base, acts);
            var was, now := BalanceOf(base, user), BalanceOf(s.accounts, user);
            && now.balance ==
               was.balance + (if now.granted && !was.granted then cfg.grant else 0) + Posted(s.ledger, user)
            && (forall i, j :: 0 <= i < j < |s.ledger| ==> s.ledger[i].id != s.ledger[j].id)
            && (forall i :: 0 <= i < |s.ledger| ==>
                  var p := s.ledger[i];
                  && p.id in s.journal && !s.journal[p.id].dryRun
                  && p.call in s.calls && s.calls[p.call].req.meta.id == p.id && s.calls[p.call].req.op == p.op)
            && (forall id :: id in s.journal && StarsRow(s.journal[id]) ==>
                  && (s.journal[id].status == Completed ==> HasPosting(s.ledger, id))
                  && (s.journal[id].status == Failed ==> !HasPosting(s.ledger, id)))
  {
    InitialLedger(cfg, base);
    StepsConserve(cfg, base, Initial(base), acts);
    StepsKeep(cfg, Initial(base), acts);
    var s := Run(cfg, base, acts);
    assert Conserved(cfg.grant, base, s.accounts, s.ledger, user);
    assert forall i :: 0 <= i < |s.ledger| ==> Posts(s, s.ledger[i]);
    assert forall id :: id in s.journal ==> RowPosted(s, s.journal[id]);
  }

  lemma InitialLedger(cfg: Config, base: map<int, Account>)
    ensures Inv(cfg, Initial(base)) && LedgerInv(cfg, base, Initial(base))
  {
    assert forall u :: Conserved(cfg.grant, base, base, [], u);
  }

  ghost predicate NonNegative(accounts: map<int, Account>) {
    forall u :: u in accounts ==> accounts[u].balance >= 0
  }

  lemma StepNonNegative(cfg: Config, s: State, a: Act)
    requires Inv(cfg, s) && NonNegative(s.accounts)
    ensures NonNegative(Step(cfg, s, a).accounts)
  {
    if a.Exec? && a.call in s.calls && InFlight(s.calls[a.call]) {
      assert Holds(cfg, s, s.calls[a.call]);
      match s.calls[a.call]
      case Begun(_, _) =>
      case Loaded(_, _, _) =>
      case Granted(_) =>
      case Ran(_, _, _) =>
    }
  }

  lemma {:induction false} StepsNonNegative(cfg: Config, s: State, acts: seq<Act>)
    requires Inv(cfg, s) && NonNegative(s.accounts)
    ensures NonNegative(Steps(cfg, s, acts).accounts)
    decreases |acts|
  {
    if acts != [] {
      StepKeeps(cfg, s, acts[0]);
      StepNonNegative(cfg, s, acts[0]);
      StepsNonNegative(cfg, Step(cfg, s, acts[0]), acts[1..]);
    }
  }

  /** From balances that are not negative no run, however interleaved, makes one negative. */
  lemma BalancesNeverNegative(cfg: Config, base: map<int, Account>, acts: seq<Act>)
    requires NonNegative(base)
    ensures NonNegative(Run(cfg, base, acts).accounts)
  {
    StepsNonNegative(cfg, Initial(base), acts);
  }

  /** Balances, rows and histories are as before. */
  ghost predicate SameStores(s: State, s': State) {
    s'.accounts == s.accounts && s'.rows == s.rows && s'.ledger == s.ledger && s'.changes == s.changes
  }

  lemma DryLedger(cfg: Config, s: State, c: nat, fault: Fault, body: Body)
    requires c in s.calls && s.calls[c].Begun? && !IsFreeze(s.calls[c].req.op) && s.calls[c].req.meta.dryRun
    ensures SameStores(s, LedgerStep(cfg, s, c, fault, body))
  {
  }

  lemma DryWrite(s: State, c: nat, fault: Fault, body: Body)
    requires c in s.calls && s.calls[c].Loaded? && s.calls[c].req.meta.dryRun
    ensures SameStores(s, WriteStep(s, c, fault, body))
  {
  }

  /** A dry run changes the journal alone: no step of it touches a balance, a row or a history. */
  lemma DryRunTouchesJournalOnly(cfg: Config, s: State, a: Act)
    requires if a.Start? then a.req.meta.dryRun else a.call in s.calls && s.calls[a.call].req.meta.dryRun
    ensures SameStores(s, Step(cfg, s, a))
  {
    match a
    case Start(_, _, _) =>
    case Load(_, _) =>
    case Exec(c, fault, body) =>
      if s.calls[c].Begun? && !IsFreeze(s.calls[c].req.op) {
        DryLedger(cfg, s, c, fault, body);
      } else if s.calls[c].Loaded? {
        DryWrite(s, c, fault, body);
      }
    case Finish(_, _) =>
    case Crash(_) =>
  }

  /** A refused debit is not free of effect: once the starting grant call has gone through, the balance
      has moved exactly when the grant is configured and was still due, whatever comes of the debit. */
  lemma RefusedDebitMovesBalance(cfg: Config, s: State, c: nat, fault: Fault, body: Body, late: Fault, after: Body)
    requires c in s.calls && s.calls[c].Begun? && s.calls[c].req.op.DebitStars? && !s.calls[c].req.meta.dryRun
    ensures var user := s.calls[c].req.op.user;
            var s1 := LedgerStep(cfg, s, c, fault, body);
            && (s1.calls[c].Granted? <==> fault == NoFault)
            && (!s1.calls[c].Granted? ==> SameLedger(s, s1))
            && (s1.calls[c].Granted? ==>
                  var s2 := DebitStep(s1, c, late, after);
                  s2.calls[c].Ran? && (s2.calls[c].err.Some? ==>
                  && s2.ledger == s.ledger
                  && (BalanceOf(s2.accounts, user).balance != BalanceOf(s.accounts, user).balance <==>
                      cfg.grant > 0 && !BalanceOf(s.accounts, user).granted)))
  {
  }

  /** A debit of more than the starting grant on a fresh account: refused, and the grant stays. */
  lemma RefusedDebitKeepsGrant(cfg: Config, s: State, c: nat, body: Body, after: Body)
    requires c in s.calls && s.calls[c].Begun? && s.calls[c].req.op.DebitStars? && !s.calls[c].req.meta.dryRun
    requires 0 < cfg.grant < s.calls[c].req.op.amount && s.calls[c].req.op.user !in s.accounts
    ensures var s1 := LedgerStep(cfg, s, c, NoFault, body);
            s1.calls[c].Granted? &&
            var s2 := DebitStep(s1, c, NoFault, after);
            && s2.calls[c] == Ran(s.calls[c].req, after, Some(StarsInsufficient))
            && BalanceOf(s2.accounts, s.calls[c].req.op.user) == Account(cfg.grant, true)
  {
  }
}
