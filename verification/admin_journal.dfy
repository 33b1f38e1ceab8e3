/** The admin command journal: every command is begun in the journal, its body runs outside any
    lock, and its result is written back. The machine interleaves the store calls of any number
    of concurrent commands, retries, lost answers and crashes. */
module AdminJournal {
  import opened Common
  import opened JsonValues

  // ---- Requests ---------------------------------------------------------------------------

  const SECOND := 1_000_000_000
  const MAX_INT32 := 2_147_483_647
  const MAX_GRANT := 1_000_000_000
  const MAX_APPEAL := 2048

  /** Times are nanoseconds; None is Go's zero time; an appeal URL comes trimmed. `Other` stands for
      every command whose body touches neither the Stars ledger nor the freeze rows. */
  datatype Op =
    | GrantStars(user: int, amount: int)
    | DebitStars(user: int, amount: int)
    | Freeze(user: int, until: Option<int>, appeal: Url)
    | Unfreeze(user: int)
    | Other(name: string)

  datatype Scheme = Http | Https | OtherScheme

  /** An appeal URL as url.ParseRequestURI sees it after trimming. */
  datatype Url = NoUrl | Malformed(text: string) | Url(scheme: Scheme, host: string, text: string)

  /** The test both the write path and the read path apply. */
  predicate AbsoluteHttp(u: Url) {
    u.Url? && u.host != "" && u.scheme != OtherScheme && |u.text| <= MAX_APPEAL
  }

  predicate IsStars(op: Op) {
    op.GrantStars? || op.DebitStars?
  }

  predicate IsFreeze(op: Op) {
    op.Freeze? || op.Unfreeze?
  }

  /** Command metadata after trimming. */
  datatype Meta = Meta(id: string, actor: string, reason: string, dryRun: bool)

  /** `payload` is the marshalled request, metadata included. */
  datatype Request = Request(meta: Meta, op: Op, payload: Json)

  /** The journal's action names. */
  datatype ActionName = GrantStarsAction | DebitStarsAction | SetAccountFrozenAction | Named(name: string)

  function Action(op: Op): ActionName {
    match op
    case GrantStars(_, _) => GrantStarsAction
    case DebitStars(_, _) => DebitStarsAction
    case Freeze(_, _, _) => SetAccountFrozenAction
    case Unfreeze(_) => SetAccountFrozenAction
    case Other(name) => Named(name)
  }

  predicate ValidMeta(m: Meta) {
    0 < |m.id| <= 128 && 0 < |m.actor| <= 128 && 0 < |m.reason| <= 1000
  }

  /** time.Time.Unix. */
  function Unix(t: int): int {
    t / SECOND
  }

  /** What each command checks before it reaches the journal; nothing here looks at the clock. */
  predicate Shape(op: Op) {
    match op
    case GrantStars(user, amount) => user > 0 && 0 < amount <= MAX_GRANT
    case DebitStars(user, amount) => user > 0 && 0 < amount <= MAX_GRANT
    case Freeze(user, until, appeal) =>
      user > 0 && until.Some? && Unix(until.value) <= MAX_INT32 && AbsoluteHttp(appeal)
    case Unfreeze(user) => user > 0
    case Other(_) => true
  }

  // ---- Journal records --------------------------------------------------------------------

  /** Why a body failed. */
  datatype Failure =
    | DeadlinePassed | DeadlineBeforeSince | RestrictionStoreFailed
    | LookupFailed | LedgerFailed | StarsInsufficient | OtherFailure

  /** Message texts; NoNote is the empty message. */
  datatype Note = NoNote | Text(text: string) | CommandFailed | CommandAlreadyExists

  datatype Status = Zero | Running | Completed | Failed

  datatype CommandResult = CommandResult(
    id: string, action: Option<ActionName>, status: Status, alreadyExecuted: bool, dryRun: bool,
    message: Note, details: map<string, string>, error: Option<Failure>)

  const ZERO_RESULT := CommandResult("", None, Zero, false, false, NoNote, map[], None)

  /** The result column: no bytes at all, the literal {}, or a marshalled result. */
  datatype Stored = Empty | Braces | Written(result: CommandResult)

  datatype Entry = Entry(
    id: string, action: ActionName, dryRun: bool, payload: Json, status: Status, stored: Stored, error: Option<Failure>)

  /** What a body returns; transient details go to the initiating caller only. */
  datatype Body = Body(message: Note, details: map<string, string>, transient: map<string, string>)

  const NO_BODY := Body(NoNote, map[], map[])

  /** The stored result of a finished body. */
  function Assemble(req: Request, body: Body, err: Option<Failure>): CommandResult {
    CommandResult(req.meta.id, Some(Action(req.op)), if err.Some? then Failed else Completed, false, req.meta.dryRun,
           if err.Some? && body.message == NoNote then CommandFailed else body.message, body.details, err)
  }

  /** resultFromCommand. */
  function ReplayOf(e: Entry): CommandResult {
    match e.stored
    case Written(r) => r.(alreadyExecuted := true)
    case Braces => ZERO_RESULT.(alreadyExecuted := true)
    case Empty => CommandResult(e.id, Some(e.action), e.status, true, e.dryRun, CommandAlreadyExists, map[], e.error)
  }

  /** The conflict test of runCommand. */
  predicate SameCommand(e: Entry, req: Request) {
    e.action == Action(req.op) && e.dryRun == req.meta.dryRun && SameJson(e.payload, req.payload)
  }

  // ---- The stores behind the bodies -------------------------------------------------------

  datatype Account = Account(balance: int, granted: bool)

  datatype FreezeRow = FreezeRow(frozen: bool, since: Option<int>, until: Option<int>, appeal: Url)

  /** A successful ledger call: the command, the call that ran it and what it asked for. */
  datatype Posting = Posting(id: string, call: nat, op: Op)

  /** An executed freeze or unfreeze. */
  datatype Change = Change(user: int, frozen: bool, at: int, op: Op)

  function Get<V>(m: map<int, V>, k: int): Option<V> {
    if k in m then Some(m[k]) else None
  }

  function BalanceOf(accounts: map<int, Account>, user: int): Account {
    if user in accounts then accounts[user] else Account(0, false)
  }

  /** EnsureGrant: the starting balance, applied once per account and only when configured. */
  function EnsureGrant(accounts: map<int, Account>, user: int, grant: nat): map<int, Account> {
    var a := BalanceOf(accounts, user);
    if grant == 0 || a.granted then accounts else accounts[user := Account(a.balance + grant, true)]
  }

  function Credit(accounts: map<int, Account>, user: int, amount: int): map<int, Account> {
    var a := BalanceOf(accounts, user);
    accounts[user := a.(balance := a.balance + amount)]
  }

  /** timestamptz keeps microseconds. */
  function Micros(t: int): int {
    t - t % 1000
  }

  /** The row SetAccountFrozen asks for. */
  function NextRow(op: Op, now: int, prev: Option<FreezeRow>): FreezeRow
    requires op.Unfreeze? || (op.Freeze? && op.until.Some?)
  {
    match op
    case Unfreeze(_) => FreezeRow(false, None, None, NoUrl)
    case Freeze(_, until, appeal) =>
      FreezeRow(true, if prev.Some? && prev.value.frozen then prev.value.since else Some(now), until, appeal)
  }

  function StoredRow(r: FreezeRow): FreezeRow {
    r.(since := if r.since.Some? then Some(Micros(r.since.value)) else None,
       until := if r.until.Some? then Some(Micros(r.until.value)) else None)
  }

  /** The table's shape constraint. */
  predicate ShapeCheck(r: FreezeRow) {
    if r.frozen then
      && r.since.Some? && r.until.Some? && r.until.value > r.since.value && r.until.value <= MAX_INT32 * SECOND
      && r.appeal != NoUrl && (r.appeal.text != "" && |r.appeal.text| <= MAX_APPEAL)
    else
      r.since.None? && r.until.None? && r.appeal == NoUrl
  }

  // ---- The machine ------------------------------------------------------------------------

  datatype Reply =
    | Rejected
    | Conflict
    | Replay(result: CommandResult)
    | Answer(result: CommandResult, error: Option<Failure>, transient: map<string, string>)
    | Lost(result: CommandResult)

  datatype Call =
    | Begun(req: Request, now: int)
    | Loaded(req: Request, now: int, prev: Option<FreezeRow>)
    | Granted(req: Request)
    | Ran(req: Request, body: Body, err: Option<Failure>)
    | Returned(req: Request, reply: Reply)
    | Dead(req: Request)

  /** `blank` is the result column of a new journal row: {} in PostgreSQL, nothing in the
      in-memory repository. `grant` is the configured starting balance. */
  datatype Config = Config(blank: Stored, grant: nat)

  datatype State = State(journal: map<string, Entry>, accounts: map<int, Account>, rows: map<int, FreezeRow>,
                         calls: map<nat, Call>, bodies: seq<string>, ledger: seq<Posting>, changes: seq<Change>)

  /** Where a body's store calls fail. */
  datatype Fault = NoFault | EarlyFault | LateFault

  datatype Act =
    | Start(call: nat, req: Request, now: int)
    | Load(call: nat, failed: bool)
    | Exec(call: nat, fault: Fault, body: Body)
    | Finish(call: nat, written: bool)
    | Crash(call: nat)

  function Initial(accounts: map<int, Account>): State {
    State(map[], accounts, map[], map[], [], [], [])
  }

  function StartStep(cfg: Config, s: State, c: nat, req: Request, now: int): State {
    var id := req.meta.id;
    if !Shape(req.op) || !ValidMeta(req.meta) then s.(calls := s.calls[c := Returned(req, Rejected)])
    else if id in s.journal then
      var reply := if SameCommand(s.journal[id], req) then Replay(ReplayOf(s.journal[id])) else Conflict;
      s.(calls := s.calls[c := Returned(req, reply)])
    else
      s.(journal := s.journal[id := Entry(id, Action(req.op), req.meta.dryRun, req.payload, Running, cfg.blank, None)],
         calls := s.calls[c := Begun(req, now)])
  }

  /** The freeze body reads the clock it was called with, then the stored row. */
  function LoadStep(s: State, c: nat, failed: bool): State
    requires c in s.calls && s.calls[c].Begun? && IsFreeze(s.calls[c].req.op)
  {
    var k := s.calls[c];
    var started := s.(bodies := s.bodies + [k.req.meta.id]);
    if k.req.op.Freeze? && (k.req.op.until.None? || k.req.op.until.value <= k.now) then
      started.(calls := s.calls[c := Ran(k.req, NO_BODY, Some(DeadlinePassed))])
    else if failed then
      started.(calls := s.calls[c := Ran(k.req, NO_BODY, Some(RestrictionStoreFailed))])
    else
      started.(calls := s.calls[c := Loaded(k.req, k.now, Get(s.rows, k.req.op.user))])
  }

  /** The freeze body writes the row it derived from the one it read. */
  function WriteStep(s: State, c: nat, fault: Fault, body: Body): State
    requires c in s.calls && s.calls[c].Loaded?
  {
    var k := s.calls[c];
    if !(k.req.op.Unfreeze? || (k.req.op.Freeze? && k.req.op.until.Some?)) then s else
    var next := NextRow(k.req.op, k.now, k.prev);
    if next.frozen && (next.since.None? || next.until.value <= next.since.value) then
      s.(calls := s.calls[c := Ran(k.req, body, Some(DeadlineBeforeSince))])
    else if k.req.meta.dryRun then s.(calls := s.calls[c := Ran(k.req, body, None)])
    else if fault != NoFault || !ShapeCheck(StoredRow(next)) then
      s.(calls := s.calls[c := Ran(k.req, body, Some(RestrictionStoreFailed))])
    else
      s.(rows := s.rows[k.req.op.user := StoredRow(next)],
         changes := s.changes + [Change(k.req.op.user, next.frozen, k.now, k.req.op)],
         calls := s.calls[c := Ran(k.req, body, None)])
  }

  /** The ledger bodies up to their first store call: the credit of a grant, or the starting grant that
      comes before a debit. */
  function LedgerStep(cfg: Config, s: State, c: nat, fault: Fault, body: Body): State
    requires c in s.calls && s.calls[c].Begun? && !IsFreeze(s.calls[c].req.op)
  {
    var k := s.calls[c];
    var id := k.req.meta.id;
    var started := s.(bodies := s.bodies + [id]);
    if fault == EarlyFault then started.(calls := s.calls[c := Ran(k.req, body, Some(LookupFailed))])
    else if k.req.meta.dryRun then started.(calls := s.calls[c := Ran(k.req, body, None)])
    else
      match k.req.op
      case GrantStars(user, amount) =>
        if fault == LateFault then started.(calls := s.calls[c := Ran(k.req, body, Some(LedgerFailed))])
        else started.(accounts := Credit(s.accounts, user, amount), ledger := s.ledger + [Posting(id, c, k.req.op)],
                      calls := s.calls[c := Ran(k.req, body, None)])
      case DebitStars(user, amount) =>
        if fault == LateFault then started.(calls := s.calls[c := Ran(k.req, body, Some(LedgerFailed))])
        else started.(accounts := EnsureGrant(s.accounts, user, cfg.grant), calls := s.calls[c := Granted(k.req)])
      case _ =>
        started.(calls := s.calls[c := Ran(k.req, body, if fault == LateFault then Some(OtherFailure) else None)])
  }

  /** The debit itself, a store call of its own. */
  function DebitStep(s: State, c: nat, fault: Fault, body: Body): State
    requires c in s.calls && s.calls[c].Granted?
  {
    var k := s.calls[c];
    if !k.req.op.DebitStars? || k.req.meta.dryRun then s
    else if fault != NoFault then s.(calls := s.calls[c := Ran(k.req, body, Some(LedgerFailed))])
    else if BalanceOf(s.accounts, k.req.op.user).balance < k.req.op.amount then
      s.(calls := s.calls[c := Ran(k.req, body, Some(StarsInsufficient))])
    else
      s.(accounts := Credit(s.accounts, k.req.op.user, -k.req.op.amount),
         ledger := s.ledger + [Posting(k.req.meta.id, c, k.req.op)],
         calls := s.calls[c := Ran(k.req, body, None)])
  }

  /** Assemble the result, journal it, and answer with the transient details added. */
  function FinishStep(s: State, c: nat, written: bool): State
    requires c in s.calls && s.calls[c].Ran?
  {
    var k := s.calls[c];
    var id := k.req.meta.id;
    var result := Assemble(k.req, k.body, k.err);
    var response := result.(details := result.details + k.body.transient);
    if written && id in s.journal then
      s.(journal := s.journal[id := s.journal[id].(status := result.status, stored := Written(result),
          error := result.error)],
         calls := s.calls[c := Returned(k.req, Answer(response, k.err, k.body.transient))])
    else s.(calls := s.calls[c := Returned(k.req, Lost(response))])
  }

  predicate InFlight(k: Call) {
    k.Begun? || k.Loaded? || k.Granted? || k.Ran?
  }

  /** One store call of one command; an act that is not enabled does nothing. */
  function Step(cfg: Config, s: State, a: Act): State {
    match a
    case Start(c, req, now) => if c in s.calls then s else StartStep(cfg, s, c, req, now)
    case Load(c, failed) =>
      if c in s.calls && s.calls[c].Begun? && IsFreeze(s.calls[c].req.op) then LoadStep(s, c, failed) else s
    case Exec(c, fault, body) =>
      if c in s.calls && s.calls[c].Begun? && !IsFreeze(s.calls[c].req.op) then LedgerStep(cfg, s, c, fault, body)
      else if c in s.calls && s.calls[c].Loaded? then WriteStep(s, c, fault, body)
      else if c in s.calls && s.calls[c].Granted? then DebitStep(s, c, fault, body)
      else s
    case Finish(c, written) => if c in s.calls && s.calls[c].Ran? then FinishStep(s, c, written) else s
    case Crash(c) => if c in s.calls && InFlight(s.calls[c]) then s.(calls := s.calls[c := Dead(s.calls[c].req)]) else s
  }

  /** A run from a state: any interleaving of any calls. */
  function Steps(cfg: Config, s: State, acts: seq<Act>): State
    decreases |acts|
  {
    if acts == [] then s else Steps(cfg, Step(cfg, s, acts[0]), acts[1..])
  }

  function Run(cfg: Config, base: map<int, Account>, acts: seq<Act>): State {
    Steps(cfg, Initial(base), acts)
  }
}
