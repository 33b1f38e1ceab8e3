/** The demo wallet's ledger: balances, the eight newest transfers a user sees, and global ids. */
module WalletLedger {
  import opened Common

  const DEFAULT_BALANCE := 125_000
  const MAX_MEMO := 180
  const MAX_TRANSFER := 500_000
  const KEPT := 8

  datatype Tx = Tx(id: int, to: string, amount: int, memo: string, createdAt: int)

  datatype Snapshot = Snapshot(balance: int, recent: seq<Tx>)

  /** The store's three fields as a value. */
  datatype Ledger = Ledger(balances: map<int, int>, txs: map<int, seq<Tx>>, nextID: int)

  function TxsOf(l: Ledger, user: int): seq<Tx> {
    if user in l.txs then l.txs[user] else []
  }

  function Ensured(l: Ledger, user: int): Ledger {
    if user in l.balances then l else l.(balances := l.balances[user := DEFAULT_BALANCE])
  }

  function Kept(txs: seq<Tx>): seq<Tx> {
    if |txs| > KEPT then txs[..KEPT] else txs
  }

  predicate WellFormed(to: string, amount: int, memo: string) {
    TrimSpace(to) != "" && 0 < amount <= MAX_TRANSFER && |TrimSpace(memo)| <= MAX_MEMO
  }

  /** One transfer that was asked for. */
  datatype Request = Request(user: int, to: string, amount: int, memo: string, now: int)

  predicate Accepts(l: Ledger, r: Request) {
    WellFormed(r.to, r.amount, r.memo) && Ensured(l, r.user).balances[r.user] >= r.amount
  }

  function Transferred(l: Ledger, r: Request): Ledger {
    if !WellFormed(r.to, r.amount, r.memo) then l
    else
      var e := Ensured(l, r.user);
      if e.balances[r.user] < r.amount then e
      else
        var tx := NewTx(l, r);
        Ledger(e.balances[r.user := e.balances[r.user] - r.amount], e.txs[r.user := Kept([tx] + TxsOf(l, r.user))],
            l.nextID + 1)
  }

  function NewTx(l: Ledger, r: Request): Tx {
    Tx(l.nextID + 1, TrimSpace(r.to), r.amount, TrimSpace(r.memo), r.now)
  }

  // ---- The store --------------------------------------------------------------------------

  class WalletStore {
    var balances: map<int, int>
    var txs: map<int, seq<Tx>>
    var nextID: int

    function State(): Ledger
      reads this
    {
      Ledger(balances, txs, nextID)
    }

    constructor ()
      ensures State() == Ledger(map[], map[], 0)
    {
      balances, txs, nextID := map[], map[], 0;
    }

    method Ensure(user: int)
      modifies this
      ensures State() == Ensured(old(State()), user)
    {
      if user !in balances {
        balances := balances[user := DEFAULT_BALANCE];
      }
    }

    method TakeSnapshot(user: int) returns (s: Snapshot)
      modifies this
      ensures State() == Ensured(old(State()), user)
      ensures s == Snapshot(balances[user], TxsOf(State(), user))
    {
      Ensure(user);
      s := Snapshot(balances[user], if user in txs then txs[user] else []);
    }

    method Transfer(user: int, to: string, amount: int, memo: string, now: int) returns (r: Result<(Tx, Snapshot)>)
      modifies this
      ensures State() == Transferred(old(State()), Request(user, to, amount, memo, now))
      ensures r.Ok? <==>
                && TrimSpace(to) != "" && 1 <= amount <= 500_000 && |TrimSpace(memo)| <= 180
                && (if user in old(balances) then old(balances)[user] else 125_000) >= amount
      ensures r.Ok? ==> r.value.0 == Tx(old(nextID) + 1, TrimSpace(to), amount, TrimSpace(memo), now)
      ensures r.Ok? ==> user in balances && user in txs && r.value.1 == Snapshot(balances[user], txs[user])
      ensures r.Ok? ==> |txs[user]| > 0 && txs[user][0] == r.value.0
    {
      var recipient, note := TrimSpace(to), TrimSpace(memo);
      if recipient == "" {
        return Err("recipient is required");
      }
      if amount <= 0 || amount > MAX_TRANSFER {
        return Err("amount is out of demo bounds");
      }
      if |note| > MAX_MEMO {
        return Err("memo is too long");
      }
      Ensure(user);
      if balances[user] < amount {
        return Err("insufficient balance");
      }
      nextID := nextID + 1;
      var tx := Tx(nextID, recipient, amount, note, now);
      balances := balances[user := balances[user] - amount];
      var list := [tx] + if user in txs then txs[user] else [];
      if |list| > KEPT {
        list := list[..KEPT];
      }
      txs := txs[user := list];
      r := Ok((tx, Snapshot(balances[user], list)));
    }
  }

  // ---- Every run --------------------------------------------------------------------------

  datatype Op = Look(user: int) | Pay(request: Request)

  function Step(l: Ledger, op: Op): Ledger {
    match op
    case Look(user) => Ensured(l, user)
    case Pay(r) => Transferred(l, r)
  }

  function Run(ops: seq<Op>): Ledger {
    if ops == [] then Ledger(map[], map[], 0) else Step(Run(ops[..|ops| - 1]), ops[|ops| - 1])
  }

  /** An accepted transfer and who made it. */
  datatype Entry = Entry(user: int, tx: Tx)

  /** The full history of accepted transfers, oldest first. */
  function History(ops: seq<Op>): seq<Entry> {
    if ops == [] then []
    else
      var before, op := Run(ops[..|ops| - 1]), ops[|ops| - 1];
      History(ops[..|ops| - 1]) +
      if op.Pay? && Accepts(before, op.request) then [Entry(op.request.user, NewTx(before, op.request))] else []
  }

  function Spent(h: seq<Entry>, user: int): int {
    if h == [] then 0
    else Spent(h[..|h| - 1], user) + if h[|h| - 1].user == user then h[|h| - 1].tx.amount else 0
  }

  /** A user's transfers, newest first. */
  function NewestFirst(h: seq<Entry>, user: int): seq<Tx> {
    if h == [] then []
    else (if h[|h| - 1].user == user then [h[|h| - 1].tx] else []) + NewestFirst(h[..|h| - 1], user)
  }

  ghost predicate Explains(l: Ledger, h: seq<Entry>) {
    && l.nextID == |h|
    && (forall i :: 0 <= i < |h| ==> h[i].tx.id == i + 1 && h[i].user in l.balances)
    && (forall u :: u in l.balances ==> l.balances[u] == DEFAULT_BALANCE - Spent(h, u) && l.balances[u] >= 0)
    && (forall u :: TxsOf(l, u) == Kept(NewestFirst(h, u)))
  }

  lemma {:induction false} Strangers(h: seq<Entry>, user: int)
    requires forall i :: 0 <= i < |h| ==> h[i].user != user
    ensures Spent(h, user) == 0 && NewestFirst(h, user) == []
  {
    if h != [] {
      Strangers(h[..|h| - 1], user);
    }
  }

  lemma EnsureExplains(l: Ledger, h: seq<Entry>, user: int)
    requires Explains(l, h)
    ensures Explains(Ensured(l, user), h)
  {
    var e := Ensured(l, user);
    if user !in l.balances {
      Strangers(h, user);
    }
    assert forall u :: TxsOf(e, u) == TxsOf(l, u);
  }

  lemma {:induction false} HistoryGrows(h: seq<Entry>, entry: Entry, user: int)
    ensures Spent(h + [entry], user) == Spent(h, user) + (if entry.user == user then entry.tx.amount else 0)
    ensures NewestFirst(h + [entry], user) == (if entry.user == user then [entry.tx] else []) + NewestFirst(h, user)
  {
  }

  lemma {:induction false} PaidTxs(l: Ledger, h: seq<Entry>, user: int, tx: Tx, u: int)
    requires Explains(l, h)
    ensures Kept(NewestFirst(h + [Entry(user, tx)], u)) == if u == user then Kept([tx] + TxsOf(l, user))
              else TxsOf(l, u)
  {
  }

  lemma {:induction false} PaidExplains(l: Ledger, l': Ledger, h: seq<Entry>, user: int, tx: Tx)
    requires Explains(l, h) && user in l.balances && l.balances[user] >= tx.amount && tx.id == l.nextID + 1
    requires l' == Ledger(l.balances[user := l.balances[user] - tx.amount], l.txs[user := Kept([tx] + TxsOf(l, user))],
              l.nextID + 1)
    ensures Explains(l', h + [Entry(user, tx)])
  {
    var h' := h + [Entry(user, tx)];
    forall u
      ensures TxsOf(l', u) == Kept(NewestFirst(h', u))
    {
      PaidTxs(l, h, user, tx, u);
    }
    forall u | u in l'.balances
      ensures l'.balances[u] == DEFAULT_BALANCE - Spent(h', u) && l'.balances[u] >= 0
    {
      HistoryGrows(h, Entry(user, tx), u);
    }
  }

  /** After every run: a touched user's balance is 125000 less what that user's accepted transfers
      took and never negative, ids count the accepted transfers, and the list kept for a user is
      exactly the newest eight of the full history, newest first. */
  lemma {:induction false} RunExplained(ops: seq<Op>)
    ensures Explains(Run(ops), History(ops))
  {
    if ops != [] {
      var before, op := ops[..|ops| - 1], ops[|ops| - 1];
      RunExplained(before);
      var l, h := Run(before), History(before);
      match op
      case Look(user) =>
        EnsureExplains(l, h, user);
        assert History(ops) == h;
      case Pay(r) =>
        EnsureExplains(l, h, r.user);
        var e := Ensured(l, r.user);
        if Accepts(l, r) {
          PaidExplains(e, Run(ops), h, r.user, NewTx(l, r));
        } else {
          assert History(ops) == h;
        }
    }
  }

  /** Newest first means strictly falling ids, and nothing but the user's own transfers, all of them. */
  lemma {:induction false} NewestFirstExact(h: seq<Entry>, user: int)
    requires forall i :: 0 <= i < |h| ==> h[i].tx.id == i + 1
    ensures var s := NewestFirst(h, user);
            && (forall i, j :: 0 <= i < j < |s| ==> s[i].id > s[j].id)
            && (forall tx :: tx in s <==> Entry(user, tx) in h)
            && (forall i :: 0 <= i < |s| ==> s[i].id <= |h|)
  {
    if h != [] {
      var n := |h| - 1;
      NewestFirstExact(h[..n], user);
      assert h == h[..n] + [h[n]];
      var s, rest := NewestFirst(h, user), NewestFirst(h[..n], user);
      if h[n].user == user {
        assert s == [h[n].tx] + rest;
        assert forall i :: 0 < i < |s| ==> s[i] == rest[i - 1] && s[i].id <= n;
      } else {
        assert s == rest;
      }
    }
  }

  /** The whole guarantee for one user's list, without the ledger's own fields. */
  ghost predicate IsRecent(recent: seq<Tx>, h: seq<Entry>, user: int) {
    var all := NewestFirst(h, user);
    && recent <= all
    && |recent| == (if |all| < 8 then |all| else 8)
    && (forall tx :: tx in all <==> Entry(user, tx) in h)
    && (forall i, j :: 0 <= i < j < |all| ==> all[i].id > all[j].id)
  }

  lemma {:induction false} RecentFrom(l: Ledger, h: seq<Entry>, user: int)
    requires Explains(l, h)
    ensures IsRecent(TxsOf(l, user), h, user)
  {
    NewestFirstExact(h, user);
    assert TxsOf(l, user) == Kept(NewestFirst(h, user));
  }

  lemma {:induction false} RecentExact(ops: seq<Op>, user: int)
    ensures IsRecent(TxsOf(Run(ops), user), History(ops), user)
  {
    RunExplained(ops);
    RecentFrom(Run(ops), History(ops), user);
  }
}
