/** The account-freeze machine on top of the journal: what the write path establishes is what the
    read path validates, over every interleaving of freeze commands. */
module AccountFreeze {
  import opened Common
  import opened AdminJournal
  import A = AdminTheorems

  /** validateAccountFreeze. */
  predicate ValidFreeze(r: FreezeRow) {
    if !r.frozen then r.since.None? && r.until.None? && r.appeal == NoUrl
    else
      && r.since.Some? && r.until.Some? && r.until.value > r.since.value
      && Unix(r.since.value) > 0 && Unix(r.until.value) <= MAX_INT32
      && AbsoluteHttp(r.appeal)
  }

  /** AccountFreeze: a missing row is the only default, an invalid row is an error. */
  function Lookup(rows: map<int, FreezeRow>, user: int): Result<Option<FreezeRow>> {
    if user == 0 || user !in rows then Ok(None)
    else if ValidFreeze(rows[user]) then Ok(Some(rows[user]))
    else Err("invalid durable account freeze")
  }

  datatype Permission = MaySend | UserFrozen | LookupError

  /** CanSendMessages. */
  function CanSendMessages(rows: map<int, FreezeRow>, user: int): Permission {
    match Lookup(rows, user)
    case Ok(found) => if found.Some? && found.value.frozen then UserFrozen else MaySend
    case Err(_) => LookupError
  }

  /** The reader's demands on a row, in its own fields: an inactive row is empty; an active one has a start
      from the first second on, a later deadline within 32 bits of seconds, and an absolute HTTP URL. */
  lemma ValidFreezeExact(r: FreezeRow)
    ensures !r.frozen ==> (ValidFreeze(r) <==> r == FreezeRow(false, None, None, NoUrl))
    ensures r.frozen ==>
              (ValidFreeze(r) <==>
               && r.since.Some? && r.until.Some? && 1_000_000_000 <= r.since.value < r.until.value
               && r.until.value < 2_147_483_648 * 1_000_000_000
               && r.appeal.Url? && (r.appeal.scheme == Http || r.appeal.scheme == Https)
               && r.appeal.host != "" && |r.appeal.text| <= 2048)
  {
  }

  /** Sending is refused exactly on an active row, fails exactly on an invalid one, and is allowed
      otherwise, also to the zero user, who has no row. */
  lemma CanSendExact(rows: map<int, FreezeRow>, user: int)
    ensures var held := user != 0 && user in rows;
            && (CanSendMessages(rows, user) == LookupError <==> held && !ValidFreeze(rows[user]))
            && (CanSendMessages(rows, user) == UserFrozen <==> held && ValidFreeze(rows[user]) && rows[user].frozen)
  {
  }

  // ---- Write path and read path -----------------------------------------------------------

  ghost predicate PositiveClock(a: Act) {
    a.Start? ==> a.now >= SECOND
  }

  ghost predicate PositiveClocks(acts: seq<Act>) {
    forall i :: 0 <= i < |acts| ==> PositiveClock(acts[i])
  }

  ghost predicate GoodRow(r: FreezeRow) {
    ValidFreeze(r) && (r.frozen ==> Micros(r.since.value) == r.since.value)
  }

  ghost predicate GoodCall(k: Call) {
    match k
    case Begun(_, now) => now >= SECOND
    case Loaded(_, now, prev) => now >= SECOND && (prev.Some? ==> GoodRow(prev.value))
    case _ => true
  }

  ghost predicate RowInv(s: State) {
    && (forall user :: user in s.rows ==> GoodRow(s.rows[user]))
    && (forall c :: c in s.calls ==> GoodCall(s.calls[c]))
  }

  lemma MicrosPositive(t: int)
    requires t >= SECOND
    ensures SECOND <= Micros(t) <= t && Micros(Micros(t)) == Micros(t)
  {
  }

  /** A row that passes the write path's checks and the table's constraint passes the reader's. */
  lemma StoredRowGood(op: Op, now: int, prev: Option<FreezeRow>)
    requires Shape(op) && IsFreeze(op) && now >= SECOND && (prev.Some? ==> GoodRow(prev.value))
    requires ShapeCheck(StoredRow(NextRow(op, now, prev)))
    ensures GoodRow(StoredRow(NextRow(op, now, prev)))
  {
  }

  ghost predicate WritesRow(s: State, a: Act) {
    a.Exec? && a.call in s.calls && s.calls[a.call].Loaded?
  }

  lemma LedgerKeepsRows(cfg: Config, s: State, c: nat, fault: Fault, body: Body)
    requires c in s.calls && s.calls[c].Begun? && !IsFreeze(s.calls[c].req.op)
    ensures var s' := LedgerStep(cfg, s, c, fault, body); s'.rows == s.rows && s'.changes == s.changes
  {
  }

  /** Only the write of a freeze body touches rows and their history. */
  lemma RowFrame(cfg: Config, s: State, a: Act)
    requires !WritesRow(s, a)
    ensures Step(cfg, s, a).rows == s.rows && Step(cfg, s, a).changes == s.changes
  {
    match a
    case Start(_, _, _) =>
    case Load(_, _) =>
    case Exec(c, fault, body) =>
      if c in s.calls && s.calls[c].Begun? && !IsFreeze(s.calls[c].req.op) {
        LedgerKeepsRows(cfg, s, c, fault, body);
      }
    case Finish(_, _) =>
    case Crash(_) =>
  }

  /** A write either leaves rows and history alone or sets one row and records it. */
  lemma WriteEffect(s: State, c: nat, fault: Fault, body: Body)
    requires c in s.calls && s.calls[c].Loaded?
    ensures var s' := WriteStep(s, c, fault, body);
            var k := s.calls[c];
            || (s'.rows == s.rows && s'.changes == s.changes)
            || (&& (k.req.op.Unfreeze? || (k.req.op.Freeze? && k.req.op.until.Some?))
                && var row := StoredRow(NextRow(k.req.op, k.now, k.prev));
                && ShapeCheck(row)
                && s'.rows == s.rows[k.req.op.user := row]
                && s'.changes == s.changes + [Change(k.req.op.user, row.frozen, k.now, k.req.op)])
  {
  }

  lemma WriteKeepsRows(cfg: Config, s: State, c: nat, fault: Fault, body: Body)
    requires A.Inv(cfg, s) && RowInv(s) && c in s.calls && s.calls[c].Loaded?
    ensures RowInv(WriteStep(s, c, fault, body))
  {
    var k := s.calls[c];
    var s' := WriteStep(s, c, fault, body);
    assert A.Holds(cfg, s, k) && GoodCall(k);
    WriteEffect(s, c, fault, body);
    A.WriteMoves(s, c, fault, body);
    if s'.rows != s.rows {
      StoredRowGood(k.req.op, k.now, k.prev);
    }
    forall d | d in s'.calls
      ensures GoodCall(s'.calls[d])
    {
      assert GoodCall(s.calls[d]);
    }
  }

  /** One call moves to a good state, the others stay. */
  ghost predicate OneCallMoves(s: State, s': State, c: nat) {
    s' == s || (c in s'.calls && s'.calls == s.calls[c := s'.calls[c]] && GoodCall(s'.calls[c]))
  }

  lemma LedgerCallMoves(cfg: Config, s: State, c: nat, fault: Fault, body: Body)
    requires c in s.calls && s.calls[c].Begun? && !IsFreeze(s.calls[c].req.op)
    ensures OneCallMoves(s, LedgerStep(cfg, s, c, fault, body), c)
  {
    A.LedgerMoves(cfg, s, c, fault, body);
  }

  lemma LoadCallMoves(s: State, c: nat, failed: bool)
    requires RowInv(s) && c in s.calls && s.calls[c].Begun? && IsFreeze(s.calls[c].req.op)
    ensures OneCallMoves(s, LoadStep(s, c, failed), c)
  {
    assert GoodCall(s.calls[c]);
  }

  lemma StartCallMoves(cfg: Config, s: State, c: nat, req: Request, now: int)
    requires c !in s.calls && now >= SECOND
    ensures OneCallMoves(s, StartStep(cfg, s, c, req, now), c)
  {
  }

  lemma DebitCallMoves(s: State, c: nat, fault: Fault, body: Body)
    requires c in s.calls && s.calls[c].Granted?
    ensures OneCallMoves(s, DebitStep(s, c, fault, body), c)
  {
  }

  lemma CallsStayGood(cfg: Config, s: State, a: Act)
    requires RowInv(s) && PositiveClock(a) && !WritesRow(s, a)
    ensures OneCallMoves(s, Step(cfg, s, a), a.call)
  {
    match a
    case Start(c, req, now) =>
      if c !in s.calls {
        StartCallMoves(cfg, s, c, req, now);
      }
    case Load(c, failed) =>
      if c in s.calls && s.calls[c].Begun? && IsFreeze(s.calls[c].req.op) {
        LoadCallMoves(s, c, failed);
      }
    case Exec(c, fault, body) =>
      if c in s.calls && s.calls[c].Begun? && !IsFreeze(s.calls[c].req.op) {
        LedgerCallMoves(cfg, s, c, fault, body);
      } else if c in s.calls && s.calls[c].Granted? {
        DebitCallMoves(s, c, fault, body);
      }
    case Finish(c, _) =>
    case Crash(c) =>
  }

  lemma StepKeepsRows(cfg: Config, s: State, a: Act)
    requires A.Inv(cfg, s) && RowInv(s) && PositiveClock(a)
    ensures RowInv(Step(cfg, s, a))
  {
    if WritesRow(s, a) {
      WriteKeepsRows(cfg, s, a.call, a.fault, a.body);
    } else {
      RowFrame(cfg, s, a);
      CallsStayGood(cfg, s, a);
    }
  }

  lemma {:induction false} StepsKeepRows(cfg: Config, s: State, acts: seq<Act>)
    requires A.Inv(cfg, s) && RowInv(s) && PositiveClocks(acts)
    ensures RowInv(Steps(cfg, s, acts))
    decreases |acts|
  {
    if acts != [] {
      assert PositiveClock(acts[0]);
      StepKeepsRows(cfg, s, acts[0]);
      A.StepKeeps(cfg, s, acts[0]);
      assert forall i :: 0 <= i < |acts[1..]| ==> acts[1..][i] == acts[i + 1];
      StepsKeepRows(cfg, Step(cfg, s, acts[0]), acts[1..]);
    }
  }

  /** Whatever commands ran, retried, crashed or raced, every stored row passes the read-side
      validator, so no lookup ever fails. */
  lemma WrittenRowsValidate(cfg: Config, base: map<int, Account>, acts: seq<Act>, user: int)
    requires PositiveClocks(acts)
    ensures var rows := Run(cfg, base, acts).rows; user in rows ==> ValidFreeze(rows[user])
    ensures CanSendMessages(Run(cfg, base, acts).rows, user) != LookupError
  {
    StepsKeepRows(cfg, Initial(base), acts);
  }

  // ---- Frozen flag and history ------------------------------------------------------------

  /** Whether the last executed change of a user was a freeze. */
  ghost predicate LastWasFreeze(changes: seq<Change>, user: int) {
    if changes == [] then false
    else
      var last := changes[|changes| - 1];
      if last.user == user then last.frozen else LastWasFreeze(changes[..|changes| - 1], user)
  }

  /** Where the user's current unbroken run of freezes began, if the user is frozen. */
  ghost function RunStart(changes: seq<Change>, user: int): Option<int> {
    if changes == [] then None
    else
      var last, before := changes[|changes| - 1], RunStart(changes[..|changes| - 1], user);
      if last.user != user then before
      else if !last.frozen then None
      else if before.Some? then before
      else Some(last.at - last.at % 1000)
  }

  lemma {:induction false} RunStartIffLast(changes: seq<Change>, user: int)
    ensures RunStart(changes, user).Some? <==> LastWasFreeze(changes, user)
  {
    if changes != [] {
      RunStartIffLast(changes[..|changes| - 1], user);
    }
  }

  lemma ChangeAppended(changes: seq<Change>, ch: Change, user: int)
    ensures LastWasFreeze(changes + [ch], user) <==> if ch.user == user then ch.frozen else LastWasFreeze(changes, user)
    ensures RunStart(changes + [ch], user) ==
            if ch.user != user then RunStart(changes, user)
            else if !ch.frozen then None
            else if RunStart(changes, user).Some? then RunStart(changes, user) else Some(ch.at - ch.at % 1000)
  {
  }

  ghost predicate FlagOf(s: State, user: int) {
    (user in s.rows && s.rows[user].frozen) <==> LastWasFreeze(s.changes, user)
  }

  ghost predicate FlagInv(s: State) {
    forall user :: FlagOf(s, user)
  }

  lemma WriteKeepsFlags(s: State, c: nat, fault: Fault, body: Body)
    requires FlagInv(s) && c in s.calls && s.calls[c].Loaded?
    ensures FlagInv(WriteStep(s, c, fault, body))
  {
    var s' := WriteStep(s, c, fault, body);
    WriteEffect(s, c, fault, body);
    forall user
      ensures FlagOf(s', user)
    {
      assert FlagOf(s, user);
      if s'.changes != s.changes {
        ChangeAppended(s.changes, s'.changes[|s.changes|], user);
      }
    }
  }

  lemma StepKeepsFlags(cfg: Config, s: State, a: Act)
    requires FlagInv(s)
    ensures FlagInv(Step(cfg, s, a))
  {
    if WritesRow(s, a) {
      WriteKeepsFlags(s, a.call, a.fault, a.body);
    } else {
      RowFrame(cfg, s, a);
      assert forall user :: FlagOf(s, user) ==> FlagOf(Step(cfg, s, a), user);
    }
  }

  lemma {:induction false} StepsKeepFlags(cfg: Config, s: State, acts: seq<Act>)
    requires FlagInv(s)
    ensures FlagInv(Steps(cfg, s, acts))
    decreases |acts|
  {
    if acts != [] {
      StepKeepsFlags(cfg, s, acts[0]);
      StepsKeepFlags(cfg, Step(cfg, s, acts[0]), acts[1..]);
    }
  }

  /** Sending is refused exactly when the user's last executed change was a freeze; no clock is
      consulted, so reaching the deadline lifts nothing. */
  lemma SendRefusedExactly(cfg: Config, base: map<int, Account>, acts: seq<Act>, user: int)
    requires PositiveClocks(acts) && user != 0
    ensures var s := Run(cfg, base, acts);
            CanSendMessages(s.rows, user) == if LastWasFreeze(s.changes, user) then UserFrozen else MaySend
  {
    assert forall u :: FlagOf(Initial(base), u);
    StepsKeepFlags(cfg, Initial(base), acts);
    StepsKeepRows(cfg, Initial(base), acts);
    assert FlagOf(Run(cfg, base, acts), user);
  }

  // ---- Since ------------------------------------------------------------------------------

  // ---- What the row says ------------------------------------------------------------------

  /** The last executed change of a user. */
  ghost function LastOp(changes: seq<Change>, user: int): Option<Op> {
    if changes == [] then None
    else if changes[|changes| - 1].user == user then Some(changes[|changes| - 1].op)
    else LastOp(changes[..|changes| - 1], user)
  }

  /** A row as its command asked for it: a freeze's deadline to the microsecond and its appeal URL, or
      nothing at all. */
  ghost predicate Tells(row: FreezeRow, op: Op) {
    match op
    case Freeze(_, until, appeal) =>
      && row.frozen && row.since.Some? && row.appeal == appeal
      && until.Some? && row.until == Some(until.value - until.value % 1000)
    case Unfreeze(_) => row == FreezeRow(false, None, None, NoUrl)
    case _ => false
  }

  ghost predicate ToldOf(s: State, user: int) {
    && (user in s.rows <==> LastOp(s.changes, user).Some?)
    && (user in s.rows ==> Tells(s.rows[user], LastOp(s.changes, user).value))
  }

  ghost predicate ToldInv(s: State) {
    forall user :: ToldOf(s, user)
  }

  lemma LastOpAppended(changes: seq<Change>, ch: Change, user: int)
    ensures LastOp(changes + [ch], user) == if ch.user == user then Some(ch.op) else LastOp(changes, user)
  {
  }

  /** The row an executed freeze or unfreeze writes, and its start: that of the frozen row read, else the
      clock to the microsecond. */
  lemma WrittenRow(s: State, c: nat, fault: Fault, body: Body)
    requires c in s.calls && s.calls[c].Loaded? && WriteStep(s, c, fault, body).changes != s.changes
    ensures var s', k := WriteStep(s, c, fault, body), s.calls[c];
            && IsFreeze(k.req.op) && k.req.op.user in s'.rows
            && var row := s'.rows[k.req.op.user];
               && s'.rows == s.rows[k.req.op.user := row] && Tells(row, k.req.op)
               && (k.req.op.Freeze? ==>
                     var start := if k.prev.Some? && k.prev.value.frozen then k.prev.value.since else Some(k.now);
                     start.Some? && row.since == Some(start.value - start.value % 1000))
  {
  }

  lemma WriteKeepsTold(s: State, c: nat, fault: Fault, body: Body)
    requires ToldInv(s) && c in s.calls && s.calls[c].Loaded?
    ensures ToldInv(WriteStep(s, c, fault, body))
  {
    var s' := WriteStep(s, c, fault, body);
    WriteEffect(s, c, fault, body);
    if s'.changes != s.changes {
      WrittenRow(s, c, fault, body);
    }
    forall user
      ensures ToldOf(s', user)
    {
      assert ToldOf(s, user);
      if s'.changes != s.changes {
        LastOpAppended(s.changes, s'.changes[|s.changes|], user);
      }
    }
  }

  lemma {:induction false} StepsKeepTold(cfg: Config, s: State, acts: seq<Act>)
    requires ToldInv(s)
    ensures ToldInv(Steps(cfg, s, acts))
    decreases |acts|
  {
    if acts != [] {
      var a, next := acts[0], Step(cfg, s, acts[0]);
      if WritesRow(s, a) {
        WriteKeepsTold(s, a.call, a.fault, a.body);
      } else {
        RowFrame(cfg, s, a);
        assert forall user :: ToldOf(s, user) ==> ToldOf(next, user);
      }
      StepsKeepTold(cfg, next, acts[1..]);
    }
  }

  /** After every run a user has a row exactly if some change of the user was executed, and the row says
      what the last one asked for. */
  lemma RowIsLastChange(cfg: Config, base: map<int, Account>, acts: seq<Act>, user: int)
    ensures var s := Run(cfg, base, acts);
            && (user in s.rows <==> LastOp(s.changes, user).Some?)
            && (user in s.rows ==> Tells(s.rows[user], LastOp(s.changes, user).value))
  {
    assert forall u :: ToldOf(Initial(base), u);
    StepsKeepTold(cfg, Initial(base), acts);
    assert ToldOf(Run(cfg, base, acts), user);
  }

  // ---- Since ------------------------------------------------------------------------------

  ghost predicate SinceOf(s: State, user: int) {
    user in s.rows && s.rows[user].frozen ==> s.rows[user].since == RunStart(s.changes, user)
  }

  ghost predicate SinceInv(s: State) {
    forall user :: SinceOf(s, user)
  }

  /** The start a freeze written at `now` over `row` would keep or set. */
  ghost function Beginning(row: Option<FreezeRow>, now: int): Option<int> {
    if row.Some? && row.value.frozen then row.value.since else Some(Micros(now))
  }

  /** One executed freeze: the stored start is the start of the unbroken run exactly when the row
      read at the beginning of the body still yields the same start when the row is written. */
  lemma SinceExact(cfg: Config, s: State, c: nat, fault: Fault, body: Body)
    requires A.Inv(cfg, s) && RowInv(s) && FlagInv(s) && SinceInv(s)
    requires c in s.calls && s.calls[c].Loaded? && s.calls[c].req.op.Freeze?
    requires WriteStep(s, c, fault, body).changes != s.changes
    ensures var k := s.calls[c];
            SinceOf(WriteStep(s, c, fault, body), k.req.op.user) <==>
            Beginning(k.prev, k.now) == Beginning(Get(s.rows, k.req.op.user), k.now)
  {
    var k := s.calls[c];
    var user := k.req.op.user;
    assert A.Holds(cfg, s, k) && GoodCall(k) && FlagOf(s, user) && SinceOf(s, user);
    RunStartIffLast(s.changes, user);
    ChangeAppended(s.changes, Change(user, true, k.now, k.req.op), user);
    MicrosPositive(k.now);
  }

  /** A freeze request that passes every check until nine seconds past the epoch. */
  predicate SoundFreeze(req: Request) {
    Shape(req.op) && ValidMeta(req.meta) && req.op.Freeze? && req.op.until == Some(9 * SECOND) &&
        req.op.appeal.text != "" && !req.meta.dryRun
  }

  lemma {:induction false} StepsJoin(cfg: Config, s: State, x: seq<Act>, y: seq<Act>)
    ensures Steps(cfg, s, x + y) == Steps(cfg, Steps(cfg, s, x), y)
    decreases |x|
  {
    if x == [] {
      assert x + y == y;
    } else {
      assert (x + y)[0] == x[0] && (x + y)[1..] == x[1..] + y;
      StepsJoin(cfg, Step(cfg, s, x[0]), x[1..], y);
    }
  }

  lemma {:induction false} TwoSteps(cfg: Config, s: State, x: Act, y: Act)
    ensures Steps(cfg, s, [x, y]) == Step(cfg, Step(cfg, s, x), y)
  {
    assert [x, y][1..] == [y] && [y][1..] == [];
    assert Steps(cfg, Step(cfg, s, x), [y]) == Steps(cfg, Step(cfg, Step(cfg, s, x), y), []);
  }

  lemma BothBegin(cfg: Config, base: map<int, Account>, a: Request, b: Request)
    requires SoundFreeze(a) && SoundFreeze(b) && a.meta.id != b.meta.id
    ensures var s := Steps(cfg, Initial(base), [Start(0, a, SECOND), Start(1, b, 2 * SECOND)]);
            && s.calls == map[0 := Begun(a, SECOND), 1 := Begun(b, 2 * SECOND)]
            && s.rows == map[] && s.changes == []
  {
    TwoSteps(cfg, Initial(base), Start(0, a, SECOND), Start(1, b, 2 * SECOND));
    var s1 := Step(cfg, Initial(base), Start(0, a, SECOND));
    assert s1.calls == map[0 := Begun(a, SECOND)] && b.meta.id !in s1.journal;
  }

  lemma BothLoad(cfg: Config, s: State, a: Request, b: Request)
    requires SoundFreeze(a) && SoundFreeze(b)
    requires s.calls == map[0 := Begun(a, SECOND), 1 := Begun(b, 2 * SECOND)] && s.rows == map[] && s.changes == []
    ensures var s' := Steps(cfg, s, [Load(0, false), Load(1, false)]);
            && s'.calls == map[0 := Loaded(a, SECOND, None), 1 := Loaded(b, 2 * SECOND, None)]
            && s'.rows == map[] && s'.changes == []
  {
    TwoSteps(cfg, s, Load(0, false), Load(1, false));
    var s1 := Step(cfg, s, Load(0, false));
    assert s1.calls == map[0 := Loaded(a, SECOND, None), 1 := Begun(b, 2 * SECOND)];
  }

  lemma BothWrite(cfg: Config, s: State, a: Request, b: Request, body: Body)
    requires SoundFreeze(a) && SoundFreeze(b) && a.op.user == b.op.user
    requires s.calls == map[0 := Loaded(a, SECOND, None), 1 := Loaded(b, 2 * SECOND, None)]
    requires s.rows == map[] && s.changes == []
    ensures var s' := Steps(cfg, s, [Exec(0, NoFault, body), Exec(1, NoFault, body)]);
            !SinceOf(s', a.op.user) && RunStart(s'.changes, a.op.user) == Some(SECOND)
  {
    var user := a.op.user;
    TwoSteps(cfg, s, Exec(0, NoFault, body), Exec(1, NoFault, body));
    var s1 := Step(cfg, s, Exec(0, NoFault, body));
    assert s1.changes == [Change(user, true, SECOND, a.op)];
    assert s1.calls[1] == Loaded(b, 2 * SECOND, None);
    var s2 := Step(cfg, s1, Exec(1, NoFault, body));
    assert s2.changes == s1.changes + [Change(user, true, 2 * SECOND, b.op)];
    assert s2.rows[user].since == Some(2 * SECOND);
    ChangeAppended([], Change(user, true, SECOND, a.op), user);
    assert [] + [Change(user, true, SECOND, a.op)] == s1.changes;
    ChangeAppended(s1.changes, Change(user, true, 2 * SECOND, b.op), user);
  }

  /** The law fails once two freezes of one user overlap: the later writer has read no row, and
      moves the start of a freeze that is already in force. */
  lemma OverlappingFreezesMoveSince(cfg: Config, base: map<int, Account>, a: Request, b: Request, body: Body)
    returns (acts: seq<Act>)
    requires SoundFreeze(a) && SoundFreeze(b) && a.meta.id != b.meta.id && a.op.user == b.op.user
    ensures PositiveClocks(acts)
    ensures !SinceOf(Run(cfg, base, acts), a.op.user)
  {
    var begin := [Start(0, a, SECOND), Start(1, b, 2 * SECOND)];
    var load := [Load(0, false), Load(1, false)];
    var write := [Exec(0, NoFault, body), Exec(1, NoFault, body)];
    acts := begin + (load + write);
    var begun := Steps(cfg, Initial(base), begin);
    StepsJoin(cfg, Initial(base), begin, load + write);
    StepsJoin(cfg, begun, load, write);
    BothBegin(cfg, base, a, b);
    BothLoad(cfg, begun, a, b);
    BothWrite(cfg, Steps(cfg, begun, load), a, b, body);
  }

  /** No other command wrote the user's row between a body's read and its write. */
  ghost predicate Current(s: State, a: Act) {
    a.Exec? && a.call in s.calls && s.calls[a.call].Loaded? && IsFreeze(s.calls[a.call].req.op) ==>
      Get(s.rows, s.calls[a.call].req.op.user) == s.calls[a.call].prev
  }

  ghost predicate Serial(cfg: Config, s: State, acts: seq<Act>)
    decreases |acts|
  {
    acts != [] ==> Current(s, acts[0]) && Serial(cfg, Step(cfg, s, acts[0]), acts[1..])
  }

  lemma WriteKeepsSince(cfg: Config, s: State, c: nat, fault: Fault, body: Body)
    requires A.Inv(cfg, s) && RowInv(s) && FlagInv(s) && SinceInv(s)
    requires c in s.calls && s.calls[c].Loaded? && Current(s, Exec(c, fault, body))
    ensures SinceInv(WriteStep(s, c, fault, body))
  {
    var s' := WriteStep(s, c, fault, body);
    var k := s.calls[c];
    assert A.Holds(cfg, s, k);
    forall user
      ensures SinceOf(s', user)
    {
      assert SinceOf(s, user);
      if s'.changes != s.changes {
        ChangeAppended(s.changes, Change(k.req.op.user, k.req.op.Freeze?, k.now, k.req.op), user);
        if user == k.req.op.user && k.req.op.Freeze? {
          SinceExact(cfg, s, c, fault, body);
        }
      }
    }
  }

  lemma StepKeepsSince(cfg: Config, s: State, a: Act)
    requires A.Inv(cfg, s) && RowInv(s) && FlagInv(s) && SinceInv(s) && Current(s, a)
    ensures SinceInv(Step(cfg, s, a))
  {
    if WritesRow(s, a) {
      WriteKeepsSince(cfg, s, a.call, a.fault, a.body);
    } else {
      RowFrame(cfg, s, a);
      assert forall user :: SinceOf(s, user) ==> SinceOf(Step(cfg, s, a), user);
    }
  }

  lemma {:induction false} StepsKeepSince(cfg: Config, s: State, acts: seq<Act>)
    requires A.Inv(cfg, s) && RowInv(s) && FlagInv(s) && SinceInv(s)
    requires PositiveClocks(acts) && Serial(cfg, s, acts)
    ensures SinceInv(Steps(cfg, s, acts))
    decreases |acts|
  {
    if acts != [] {
      assert PositiveClock(acts[0]);
      A.StepKeeps(cfg, s, acts[0]);
      StepKeepsRows(cfg, s, acts[0]);
      StepKeepsFlags(cfg, s, acts[0]);
      StepKeepsSince(cfg, s, acts[0]);
      assert forall i :: 0 <= i < |acts[1..]| ==> acts[1..][i] == acts[i + 1];
      StepsKeepSince(cfg, Step(cfg, s, acts[0]), acts[1..]);
    }
  }

  /** When no two freeze bodies of one user overlap, Since is the start of the current unbroken
      run of freezes, however often the freeze was extended. */
  lemma SinceIsRunStart(cfg: Config, base: map<int, Account>, acts: seq<Act>, user: int)
    requires PositiveClocks(acts) && Serial(cfg, Initial(base), acts)
    ensures var s := Run(cfg, base, acts);
            user in s.rows && s.rows[user].frozen ==> s.rows[user].since == RunStart(s.changes, user)
  {
    assert forall u :: FlagOf(Initial(base), u) && SinceOf(Initial(base), u);
    StepsKeepSince(cfg, Initial(base), acts);
    assert SinceOf(Run(cfg, base, acts), user);
  }

  /** The deadline is checked inside the body: a new request past it is journalled as failed and
      touches no row, while a completed id replays at any later clock (A.ReplayRepeatsAnswer). */
  lemma StaleFreezeChangesNothing(cfg: Config, s: State, c: nat, failed: bool)
    requires A.Inv(cfg, s) && c in s.calls && s.calls[c].Begun? && s.calls[c].req.op.Freeze?
    requires s.calls[c].req.op.until.Some? && s.calls[c].req.op.until.value <= s.calls[c].now
    ensures var s1 := Step(cfg, s, Load(c, failed));
            var s2 := Step(cfg, s1, Finish(c, true));
            && s2.rows == s.rows && s2.changes == s.changes
            && s.calls[c].req.meta.id in s2.journal && s2.journal[s.calls[c].req.meta.id].status == Failed
            && s2.journal[s.calls[c].req.meta.id].error == Some(DeadlinePassed)
  {
  }
}

/** The batched freeze lookup against the single-row fallback. */
module FreezeLookup {
  import opened Common
  import opened AdminJournal
  import opened AccountFreeze

  const BATCH_SIZE := 1000

  /** The rows a request for these ids may see. */
  ghost predicate Requested(rows: map<int, FreezeRow>, ids: seq<int>, id: int) {
    id in ids && id != 0 && id in rows
  }

  /** What the lookups promise: the frozen rows among the requested ids. */
  function FrozenOf(rows: map<int, FreezeRow>, ids: seq<int>): map<int, FreezeRow> {
    map id | id in ids && id != 0 && id in rows && rows[id].frozen :: rows[id]
  }

  /** First occurrences of the non-zero ids, in the order of the request. */
  method UniqueFreezeUserIds(userIds: seq<int>) returns (out: seq<int>)
    ensures out == Firsts(userIds, 0)
    ensures forall i, j :: 0 <= i < j < |out| ==> out[i] != out[j] && OccursBefore(userIds, out[i], out[j])
    ensures forall id :: id in out <==> id in userIds && id != 0
  {
    out := [];
    var seen: set<int> := {};
    for i := 0 to |userIds|
      invariant out == Firsts(userIds[..i], 0)
      invariant forall id :: id in out <==> id in seen
    {
      FirstsMore(userIds, 0, i);
      var id := userIds[i];
      if id != 0 && id !in seen {
        seen := seen + {id};
        out := out + [id];
      }
    }
    assert userIds[..|userIds|] == userIds;
    FirstsExact(userIds, 0);
  }

  /** The store's array query, which only returns frozen rows. */
  function GetAccountFreezes(rows: map<int, FreezeRow>, ids: seq<int>): map<int, FreezeRow> {
    map id | id in ids && id in rows && rows[id].frozen :: rows[id]
  }

  ghost predicate ActiveRowsValid(rows: map<int, FreezeRow>, ids: seq<int>) {
    forall id :: id in ids && id in rows && rows[id].frozen ==> ValidFreeze(rows[id])
  }

  lemma PagesJoin(rows: map<int, FreezeRow>, a: seq<int>, b: seq<int>)
    ensures GetAccountFreezes(rows, a + b) == GetAccountFreezes(rows, a) + GetAccountFreezes(rows, b)
    ensures ActiveRowsValid(rows, a + b) <==> ActiveRowsValid(rows, a) && ActiveRowsValid(rows, b)
  {
  }

  ghost predicate AllValid(items: map<int, FreezeRow>) {
    forall id :: id in items ==> ValidFreeze(items[id])
  }

  /** One page of the batch: validate each returned row, keep the frozen ones. */
  method AddPage(items: map<int, FreezeRow>, before: map<int, FreezeRow>) returns (ok: bool, out: map<int, FreezeRow>)
    requires forall id :: id in items ==> items[id].frozen
    ensures ok <==> AllValid(items)
    ensures ok ==> out == before + items
  {
    ok, out := true, before;
    var todo := items.Keys;
    while todo != {}
      invariant todo <= items.Keys
      invariant AllValid(items - todo)
      invariant out == before + (items - todo)
      decreases todo
    {
      var id := Pick(todo);
      if !ValidFreeze(items[id]) {
        return false, out;
      }
      if items[id].frozen {
        out := out[id := items[id]];
      }
      todo := todo - {id};
    }
    assert items - todo == items;
  }

  lemma PageValid(rows: map<int, FreezeRow>, ids: seq<int>)
    ensures AllValid(GetAccountFreezes(rows, ids)) <==> ActiveRowsValid(rows, ids)
  {
    var items := GetAccountFreezes(rows, ids);
    assert forall id :: id in items <==> id in ids && id in rows && rows[id].frozen;
  }

  /** The chunk loop over ids already made unique; `sizes` are those of the queries it makes. */
  method GetInBatches(rows: map<int, FreezeRow>, ids: seq<int>)
    returns (ok: bool, out: map<int, FreezeRow>, ghost sizes: seq<nat>)
    ensures ok <==> ActiveRowsValid(rows, ids)
    ensures ok ==> out == GetAccountFreezes(rows, ids)
    ensures forall i :: 0 <= i < |sizes| ==> 1 <= sizes[i] <= 1000
    ensures ok ==> |sizes| == (|ids| + 999) / 1000
  {
    sizes := [];
    ok, out := true, map[];
    var start := 0;
    ghost var done := 0;
    while start < |ids|
      invariant 0 <= done <= |ids| && done == if start < |ids| then start else |ids|
      invariant out == GetAccountFreezes(rows, ids[..done]) && ActiveRowsValid(rows, ids[..done])
      invariant forall i :: 0 <= i < |sizes| ==> 1 <= sizes[i] <= 1000
      invariant start == 1000 * |sizes| && (start > 0 ==> start < |ids| + 1000)
      decreases |ids| - start
    {
      var end := if start + BATCH_SIZE < |ids| then start + BATCH_SIZE else |ids|;
      var page := ids[start..end];
      sizes := sizes + [|page|];
      var items := GetAccountFreezes(rows, page);
      PageValid(rows, page);
      ok, out := AddPage(items, out);
      BatchJoins(rows, ids, start, end);
      if !ok {
        return;
      }
      start, done := start + BATCH_SIZE, end;
    }
    assert ids[..|ids|] == ids;
  }

  lemma BatchJoins(rows: map<int, FreezeRow>, ids: seq<int>, start: nat, end: nat)
    requires start <= end <= |ids|
    ensures GetAccountFreezes(rows, ids[..end]) ==
              GetAccountFreezes(rows, ids[..start]) + GetAccountFreezes(rows, ids[start..end])
    ensures ActiveRowsValid(rows, ids[..end]) <==>
              ActiveRowsValid(rows, ids[..start]) && ActiveRowsValid(rows, ids[start..end])
    ensures ActiveRowsValid(rows, ids) ==> ActiveRowsValid(rows, ids[start..end])
  {
    PagesJoin(rows, ids[..start], ids[start..end]);
    assert ids[..start] + ids[start..end] == ids[..end];
  }

  /** AccountFreezes over a store with array queries, a thousand ids at a time. */
  method AccountFreezesBatched(rows: map<int, FreezeRow>, userIds: seq<int>) returns (r: Result<map<int, FreezeRow>>)
    ensures r.Ok? <==> forall id :: Requested(rows, userIds, id) && rows[id].frozen ==> ValidFreeze(rows[id])
    ensures r.Ok? ==> r.value == FrozenOf(rows, userIds)
  {
    var ids := UniqueFreezeUserIds(userIds);
    ghost var sizes;
    var ok, out;
    ok, out, sizes := GetInBatches(rows, ids);
    assert GetAccountFreezes(rows, ids) == FrozenOf(rows, userIds);
    assert forall id :: id in ids && id in rows <==> Requested(rows, userIds, id);
    r := if ok then Ok(out) else Err("invalid durable account freeze");
  }

  /** The lookup of one id after the other. */
  method LookupEach(rows: map<int, FreezeRow>, ids: seq<int>) returns (ok: bool, out: map<int, FreezeRow>)
    requires 0 !in ids
    ensures ok <==> forall id :: id in ids && id in rows ==> ValidFreeze(rows[id])
    ensures ok ==> out == GetAccountFreezes(rows, ids)
  {
    ok, out := true, map[];
    for i := 0 to |ids|
      invariant out == GetAccountFreezes(rows, ids[..i])
      invariant forall id :: id in ids[..i] && id in rows ==> ValidFreeze(rows[id])
    {
      var id := ids[i];
      assert id in ids;
      assert ids[..i + 1] == ids[..i] + [id];
      match Lookup(rows, id)
      case Err(_) =>
        return false, out;
      case Ok(found) =>
        if found.Some? && found.value.frozen {
          out := out[id := found.value];
        }
    }
    assert ids[..|ids|] == ids;
  }

  /** AccountFreezes over a store without them, one row at a time. */
  method AccountFreezesOneByOne(rows: map<int, FreezeRow>, userIds: seq<int>) returns (r: Result<map<int, FreezeRow>>)
    ensures r.Ok? <==> forall id :: Requested(rows, userIds, id) ==> ValidFreeze(rows[id])
    ensures r.Ok? ==> r.value == FrozenOf(rows, userIds)
  {
    var ids := UniqueFreezeUserIds(userIds);
    var ok, out := LookupEach(rows, ids);
    assert GetAccountFreezes(rows, ids) == FrozenOf(rows, userIds);
    assert forall id :: id in ids && id in rows <==> Requested(rows, userIds, id);
    r := if ok then Ok(out) else Err("invalid durable account freeze");
  }

  /** Both paths on the same request: they answer alike exactly when no requested row is an invalid
      inactive one, or an invalid active one fails them both. With valid rows they always do. */
  method BothLookups(rows: map<int, FreezeRow>, userIds: seq<int>)
    returns (batched: Result<map<int, FreezeRow>>, single: Result<map<int, FreezeRow>>)
    ensures (forall id :: id in rows ==> ValidFreeze(rows[id])) ==> batched == single == Ok(FrozenOf(rows, userIds))
    ensures batched.Ok? <==> forall id :: Requested(rows, userIds, id) && rows[id].frozen ==> ValidFreeze(rows[id])
    ensures batched.Ok? ==> batched.value == FrozenOf(rows, userIds)
    ensures single.Ok? <==> forall id :: Requested(rows, userIds, id) ==> ValidFreeze(rows[id])
    ensures (batched.Ok? == single.Ok? && (batched.Ok? ==> batched.value == single.value)) <==>
            || (exists id :: Requested(rows, userIds, id) && rows[id].frozen && !ValidFreeze(rows[id]))
            || (forall id :: Requested(rows, userIds, id) ==> ValidFreeze(rows[id]))
  {
    batched := AccountFreezesBatched(rows, userIds);
    single := AccountFreezesOneByOne(rows, userIds);
  }

  /** They do differ: an inactive row with a leftover start fails the single lookup and is not seen by
      the batch. */
  method LookupsDiffer(id: int) returns (batched: Result<map<int, FreezeRow>>, single: Result<map<int, FreezeRow>>)
    requires id != 0
    ensures batched == Ok(map[]) && single.Err?
  {
    var rows := map[id := FreezeRow(false, Some(SECOND), None, NoUrl)];
    var userIds := [id];
    assert Requested(rows, userIds, id) && !ValidFreeze(rows[id]);
    batched, single := BothLookups(rows, userIds);
  }
}
