/**
  The garbage-collection command of the token command line: group the owner's token accounts by
  mint, plan one transaction per account to empty and close, and send the plan in order.
 */
module TokenGc {
  import opened Wrappers
  import opened Sums
  import opened TokenLedger
  import opened TokenListing

  // ---- the fetched listing ----

  /** A token account as the node reports it; `None` marks text that does not parse. */
  datatype UiAccount = UiAccount(mint: Option<Pubkey>, amount: Option<u64>, decimals: nat, frozen: bool,
                                 closeAuthority: Option<Option<Pubkey>>)

  type KeyedAccount = RpcAccount<Option<Pubkey>, UiAccount>

  datatype Panic =
    | InvalidMint
    | InvalidTokenAccount
    | InvalidAmount
    | InvalidCloseAuthority
    | SanityCheck

  // ---- grouping ----

  datatype Entry = Entry(amount: nat, decimals: nat, frozen: bool, closeAuthority: Pubkey)

  type Groups = map<Pubkey, map<Pubkey, Entry>>

  datatype Row = Row(mint: Pubkey, address: Pubkey, entry: Entry)

  function ReadAccount(k: KeyedAccount, owner: Pubkey): Result<Option<Row>, Panic> {
    if !IsTokenAccount(k) then Ok(None) else
    var p := AccountOf(k);
    if p.mint.None? then Err(InvalidMint)
    else if k.pubkey.None? then Err(InvalidTokenAccount)
    else if p.amount.None? then Err(InvalidAmount)
    else if p.closeAuthority == Some(None) then Err(InvalidCloseAuthority)
    else
      var closer := if p.closeAuthority.None? then owner else p.closeAuthority.value.value;
      Ok(Some(Row(p.mint.value, k.pubkey.value, Entry(p.amount.value, p.decimals, p.frozen, closer))))
  }

  /** Entries that are not token accounts are passed over; of the rest, the first unparsable part stops the command. */
  lemma ReadAccountStops(k: KeyedAccount, owner: Pubkey)
    ensures ReadAccount(k, owner) == Ok(None) <==> !IsTokenAccount(k)
    ensures IsTokenAccount(k) ==>
      var p, r := AccountOf(k), ReadAccount(k, owner);
      && (r == Err(InvalidMint) <==> p.mint.None?)
      && (r == Err(InvalidTokenAccount) <==> p.mint.Some? && k.pubkey.None?)
      && (r == Err(InvalidAmount) <==> p.mint.Some? && k.pubkey.Some? && p.amount.None?)
      && (r == Err(InvalidCloseAuthority) <==>
            p.mint.Some? && k.pubkey.Some? && p.amount.Some? && p.closeAuthority == Some(None))
      && r != Err(SanityCheck)
  {}

  function AddRow(g: Groups, row: Row): Groups {
    g[row.mint := (if row.mint in g then g[row.mint] else map[])[row.address := row.entry]]
  }

  function Grouped(accounts: seq<KeyedAccount>, owner: Pubkey): Result<Groups, Panic> {
    if accounts == [] then Ok(map[]) else
    var g :- Grouped(accounts[..|accounts| - 1], owner);
    var row :- ReadAccount(accounts[|accounts| - 1], owner);
    Ok(if row.Some? then AddRow(g, row.value) else g)
  }

  lemma {:induction false} GroupedStops(accounts: seq<KeyedAccount>, owner: Pubkey, k: nat)
    requires k <= |accounts| && Grouped(accounts[..k], owner).Err?
    ensures Grouped(accounts, owner) == Grouped(accounts[..k], owner)
    decreases |accounts|
  {
    if k < |accounts| {
      assert accounts[..|accounts| - 1][..k] == accounts[..k];
      GroupedStops(accounts[..|accounts| - 1], owner, k);
    } else {
      assert accounts[..k] == accounts;
    }
  }

  method GroupByMint(accounts: seq<KeyedAccount>, owner: Pubkey) returns (r: Result<Groups, Panic>)
    ensures r == Grouped(accounts, owner)
  {
    var groups: Groups := map[];
    for i := 0 to |accounts|
      invariant Grouped(accounts[..i], owner) == Ok(groups)
    {
      assert accounts[..i + 1][..i] == accounts[..i];
      var row := ReadAccount(accounts[i], owner);
      if row.Err? {
        GroupedStops(accounts, owner, i + 1);
        return Err(row.error);
      }
      if row.value.Some? {
        groups := AddRow(groups, row.value.value);
      }
    }
    assert accounts[..|accounts|] == accounts;
    return Ok(groups);
  }

  // ---- what the planner decides for one mint ----

  ghost function Amounts(g: map<Pubkey, Entry>): map<Pubkey, nat> {
    map a | a in g :: g[a].amount
  }

  /** What is left of `n` in a u64. */
  function Wrap(n: nat): u64 {
    if n < U64_SIZE then n else Wrap(n - U64_SIZE)
  }

  /** What is left is congruent: full u64 ranges are taken off, and the rest fits. */
  lemma {:induction false} WrapIs(n: nat) returns (k: nat)
    ensures n == Wrap(n) + k * U64_SIZE && 0 <= Wrap(n) < U64_SIZE
  {
    if n < U64_SIZE {
      k := 0;
    } else {
      k := WrapIs(n - U64_SIZE);
      k := k + 1;
    }
  }

  /** The u64 total of a group; the addition wraps around. */
  ghost function WrappedTotal(g: map<Pubkey, Entry>): u64 {
    Wrap(Sum(Amounts(g)))
  }

  /** One unit of work: create the associated account of a mint, or empty and close an account. */
  datatype Step = Create(mint: Pubkey) | Sweep(mint: Pubkey, address: Pubkey, entry: Entry)

  ghost predicate Planned(owner: Pubkey, closeEmpty: bool, groups: Groups, s: Step) {
    s.mint in groups &&
    var g, ata := groups[s.mint], Associated(owner, s.mint);
    match s
    case Create(_) => WrappedTotal(g) > 0 && ata !in g
    case Sweep(_, a, e) =>
      a in g && g[a] == e && !e.frozen && (a == ata ==> closeEmpty && WrappedTotal(g) == 0)
  }

  /** The transaction of one step; an account with nothing to move that is not ours to close has none. */
  function TxOf(owner: Pubkey, s: Step): Transaction {
    match s
    case Create(m) => [CreateAssociated(owner, m)]
    case Sweep(m, a, e) =>
      (if e.amount > 0
       then [TransferChecked(a, m, Associated(owner, m), owner, e.amount, e.decimals)] else []) +
      (if e.closeAuthority == owner then [CloseAccount(a, owner, owner)] else [])
  }

  function Txs(owner: Pubkey, steps: seq<Step>): seq<Transaction> {
    if steps == [] then [] else
    var tx := TxOf(owner, steps[|steps| - 1]);
    Txs(owner, steps[..|steps| - 1]) + if tx == [] then [] else [tx]
  }

  lemma {:induction false} TxsConcat(owner: Pubkey, s: seq<Step>, t: seq<Step>)
    ensures Txs(owner, s + t) == Txs(owner, s) + Txs(owner, t)
    decreases |t|
  {
    if t == [] {
      assert s + t == s;
    } else {
      assert (s + t)[..|s + t| - 1] == s + t[..|t| - 1];
      TxsConcat(owner, s, t[..|t| - 1]);
    }
  }

  ghost predicate Distinct(steps: seq<Step>) {
    forall i, j :: 0 <= i < j < |steps| ==> steps[i] != steps[j]
  }

  /** No account of a mint is swept before that mint's associated account is created. */
  ghost predicate CreatesFirst(steps: seq<Step>) {
    forall i, j :: 0 <= i < j < |steps| && steps[j].Create? ==> steps[i].mint != steps[j].mint
  }

  /** `steps` does the planned work of the mints in `done`, each piece once, in some order. */
  ghost predicate Covers(owner: Pubkey, closeEmpty: bool, groups: Groups, done: set<Pubkey>, steps: seq<Step>) {
    && Distinct(steps)
    && CreatesFirst(steps)
    && forall s: Step :: s in steps <==> s.mint in done && Planned(owner, closeEmpty, groups, s)
  }

  /** Every order in which the two hash maps may be walked gives a schedule. */
  ghost predicate Schedule(owner: Pubkey, closeEmpty: bool, groups: Groups, steps: seq<Step>) {
    Covers(owner, closeEmpty, groups, groups.Keys, steps)
  }

  /** The planner's own assertion is reached with a non-empty associated account. */
  ghost predicate SanityFails(owner: Pubkey, closeEmpty: bool, m: Pubkey, g: map<Pubkey, Entry>) {
    var ata := Associated(owner, m);
    closeEmpty && WrappedTotal(g) == 0 && ata in g && !g[ata].frozen && g[ata].amount > 0
  }

  function CountCreates(plan: seq<Transaction>): nat {
    if plan == [] then 0
    else CountCreates(plan[..|plan| - 1]) +
         if |plan[|plan| - 1]| == 1 && plan[|plan| - 1][0].CreateAssociated? then 1 else 0
  }

  lemma {:induction false} CountCreatesConcat(p: seq<Transaction>, q: seq<Transaction>)
    ensures CountCreates(p + q) == CountCreates(p) + CountCreates(q)
    decreases |q|
  {
    if q == [] {
      assert p + q == p;
    } else {
      assert (p + q)[..|p + q| - 1] == p + q[..|q| - 1];
      CountCreatesConcat(p, q[..|q| - 1]);
    }
  }

  // ---- the planner ----

  /** u64 addition without overflow checks. */
  function WrappingAdd(x: nat, y: nat): u64 {
    Wrap(x + y)
  }

  lemma {:induction false} AddWraps(x: nat, n: nat)
    ensures Wrap(x + n) == WrappingAdd(Wrap(x), n)
  {
    if x >= U64_SIZE {
      AddWraps(x - U64_SIZE, n);
    }
  }

  method TotalBalance(g: map<Pubkey, Entry>) returns (total: u64)
    ensures total == WrappedTotal(g)
  {
    total := 0;
    var keys := g.Keys;
    ghost var rest := Amounts(g);
    ghost var sum: nat := 0;
    while keys != {}
      invariant keys <= g.Keys == Amounts(g).Keys
      invariant rest == Amounts(g) - (g.Keys - keys)
      invariant sum + Sum(rest) == Sum(Amounts(g))
      invariant total == Wrap(sum)
      decreases keys
    {
      var a :| a in keys;
      SumRemove(rest, a);
      AddWraps(sum, g[a].amount);
      total := WrappingAdd(total, g[a].amount);
      sum := sum + g[a].amount;
      keys := keys - {a};
      assert rest - {a} == Amounts(g) - (g.Keys - keys);
      rest := rest - {a};
    }
    assert rest == map[];
  }

  /** The accounts of mint `m` outside `keys` are planned, after the mint's associated account. */
  ghost predicate PlannedBut(owner: Pubkey, closeEmpty: bool, m: Pubkey, g: map<Pubkey, Entry>,
                             keys: set<Pubkey>, steps: seq<Step>)
  {
    && Distinct(steps)
    && (forall i :: 0 < i < |steps| ==> steps[i].Sweep?)
    && forall s: Step :: s in steps <==>
        s.mint == m && Planned(owner, closeEmpty, map[m := g], s) && (s.Sweep? ==> s.address !in keys)
  }

  lemma PlannedStart(owner: Pubkey, closeEmpty: bool, m: Pubkey, g: map<Pubkey, Entry>, steps: seq<Step>)
    requires steps == if Planned(owner, closeEmpty, map[m := g], Create(m)) then [Create(m)] else []
    ensures PlannedBut(owner, closeEmpty, m, g, g.Keys, steps)
    ensures Txs(owner, steps) == if steps == [] then [] else [[CreateAssociated(owner, m)]]
    ensures CountCreates(Txs(owner, steps)) == |steps|
  {}

  lemma PlannedSkip(owner: Pubkey, closeEmpty: bool, m: Pubkey, g: map<Pubkey, Entry>,
                    keys: set<Pubkey>, steps: seq<Step>, a: Pubkey)
    requires a in keys && keys <= g.Keys && PlannedBut(owner, closeEmpty, m, g, keys, steps)
    requires !Planned(owner, closeEmpty, map[m := g], Sweep(m, a, g[a]))
    ensures PlannedBut(owner, closeEmpty, m, g, keys - {a}, steps)
  {}

  lemma PlannedSweep(owner: Pubkey, closeEmpty: bool, m: Pubkey, g: map<Pubkey, Entry>,
                     keys: set<Pubkey>, steps: seq<Step>, a: Pubkey)
    requires a in keys && keys <= g.Keys && PlannedBut(owner, closeEmpty, m, g, keys, steps)
    requires Planned(owner, closeEmpty, map[m := g], Sweep(m, a, g[a]))
    ensures PlannedBut(owner, closeEmpty, m, g, keys - {a}, steps + [Sweep(m, a, g[a])])
    ensures Txs(owner, steps + [Sweep(m, a, g[a])]) ==
            Txs(owner, steps) + if TxOf(owner, Sweep(m, a, g[a])) == [] then [] else [TxOf(owner, Sweep(m, a, g[a]))]
  {}

  lemma PlannedAll(owner: Pubkey, closeEmpty: bool, m: Pubkey, g: map<Pubkey, Entry>, steps: seq<Step>)
    requires PlannedBut(owner, closeEmpty, m, g, {}, steps)
    ensures Covers(owner, closeEmpty, map[m := g], {m}, steps)
  {}

  /** The body of the account loop: skip `a`, stop on it, or add its transaction. */
  method PlanAccount(owner: Pubkey, closeEmpty: bool, m: Pubkey, g: map<Pubkey, Entry>, total: u64, a: Pubkey,
                     ghost keys: set<Pubkey>, ghost steps: seq<Step>)
    returns (r: Result<seq<Transaction>, Panic>, ghost more: seq<Step>)
    requires a in keys && keys <= g.Keys && total == WrappedTotal(g)
    requires PlannedBut(owner, closeEmpty, m, g, keys, steps)
    ensures r.Err? <==> a == Associated(owner, m) && SanityFails(owner, closeEmpty, m, g)
    ensures r.Err? ==> r.error == SanityCheck
    ensures r.Ok? ==> PlannedBut(owner, closeEmpty, m, g, keys - {a}, steps + more)
    ensures r.Ok? ==> Txs(owner, steps + more) == Txs(owner, steps) + r.value
    ensures r.Ok? ==> CountCreates(r.value) == 0
  {
    hide PlannedBut, Txs, Wrap, Sum;
    var ata := Associated(owner, m);
    var e := g[a];
    more := [];
    assert steps + [] == steps;
    if a == ata && (total > 0 || !closeEmpty) {
      PlannedSkip(owner, closeEmpty, m, g, keys, steps, a);
      return Ok([]), more;
    }
    if e.frozen {
      PlannedSkip(owner, closeEmpty, m, g, keys, steps, a);
      return Ok([]), more;
    }
    if e.amount > 0 && a == ata {
      return Err(SanityCheck), more;
    }
    var instructions: Transaction := [];
    if e.amount > 0 {
      instructions := instructions + [TransferChecked(a, m, ata, owner, e.amount, e.decimals)];
    }
    if e.closeAuthority == owner {
      instructions := instructions + [CloseAccount(a, owner, owner)];
    }
    PlannedSweep(owner, closeEmpty, m, g, keys, steps, a);
    more := [Sweep(m, a, e)];
    assert instructions == TxOf(owner, Sweep(m, a, e));
    assert [instructions][..0] == [];
    return Ok(if instructions == [] then [] else [instructions]), more;
  }

  /** Plan one mint: its associated account first when needed, then its accounts in any order. */
  method PlanToken(owner: Pubkey, closeEmpty: bool, m: Pubkey, g: map<Pubkey, Entry>)
    returns (r: Result<(seq<Transaction>, bool), Panic>, ghost steps: seq<Step>)
    ensures r.Err? <==> SanityFails(owner, closeEmpty, m, g)
    ensures r.Err? ==> r.error == SanityCheck
    ensures r.Ok? ==> Covers(owner, closeEmpty, map[m := g], {m}, steps)
    ensures r.Ok? ==> r.value.0 == Txs(owner, steps)
    ensures r.Ok? ==> CountCreates(r.value.0) == if r.value.1 then 1 else 0
  {
    var ata := Associated(owner, m);
    var total := TotalBalance(g);
    var create := total > 0 && ata !in g;
    var plan := if create then [[CreateAssociated(owner, m)]] else [];
    steps := if create then [Create(m)] else [];
    PlannedStart(owner, closeEmpty, m, g, steps);
    var keys := g.Keys;
    while keys != {}
      invariant keys <= g.Keys
      invariant plan == Txs(owner, steps)
      invariant CountCreates(plan) == if create then 1 else 0
      invariant PlannedBut(owner, closeEmpty, m, g, keys, steps)
      invariant SanityFails(owner, closeEmpty, m, g) ==> ata in keys
      decreases keys
    {
      var a :| a in keys;
      var one, more := PlanAccount(owner, closeEmpty, m, g, total, a, keys, steps);
      if one.Err? {
        return Err(one.error), steps;
      }
      CountCreatesConcat(plan, one.value);
      plan, steps, keys := plan + one.value, steps + more, keys - {a};
    }
    PlannedAll(owner, closeEmpty, m, g, steps);
    return Ok((plan, create)), steps;
  }

  lemma CoversExtend(owner: Pubkey, closeEmpty: bool, groups: Groups, done: set<Pubkey>, m: Pubkey,
                     steps: seq<Step>, more: seq<Step>)
    requires m in groups && m !in done
    requires Covers(owner, closeEmpty, groups, done, steps)
    requires Covers(owner, closeEmpty, map[m := groups[m]], {m}, more)
    ensures Covers(owner, closeEmpty, groups, done + {m}, steps + more)
  {}

  /** Adding the rent `n` times in u64. */
  function AddedRent(rent: u64, n: nat): u64 {
    if n == 0 then 0 else WrappingAdd(AddedRent(rent, n - 1), rent)
  }

  lemma {:induction false} AddedRentIsProduct(rent: u64, n: nat)
    ensures AddedRent(rent, n) == Wrap(rent * n)
  {
    if n > 0 {
      AddedRentIsProduct(rent, n - 1);
      AddWraps(rent * (n - 1), rent);
      assert rent * n == rent * (n - 1) + rent;
    }
  }

  method AddRent(lamports: u64, rent: u64, ghost n: nat) returns (sum: u64)
    requires lamports == AddedRent(rent, n)
    ensures sum == AddedRent(rent, n + 1)
  {
    sum := WrappingAdd(lamports, rent);
  }

  lemma PlanExtend(owner: Pubkey, closeEmpty: bool, groups: Groups, mints: set<Pubkey>, m: Pubkey,
                   steps: seq<Step>, more: seq<Step>)
    requires mints <= groups.Keys && m in mints
    requires Covers(owner, closeEmpty, groups, groups.Keys - mints, steps)
    requires Covers(owner, closeEmpty, map[m := groups[m]], {m}, more)
    ensures Covers(owner, closeEmpty, groups, groups.Keys - (mints - {m}), steps + more)
    ensures Txs(owner, steps + more) == Txs(owner, steps) + Txs(owner, more)
    ensures CountCreates(Txs(owner, steps + more)) == CountCreates(Txs(owner, steps)) + CountCreates(Txs(owner, more))
  {
    CoversExtend(owner, closeEmpty, groups, groups.Keys - mints, m, steps, more);
    assert groups.Keys - mints + {m} == groups.Keys - (mints - {m});
    TxsConcat(owner, steps, more);
    CountCreatesConcat(Txs(owner, steps), Txs(owner, more));
  }

  /** Plan every mint, in any order; the rent of the accounts to create is added up in u64. */
  method Plan(owner: Pubkey, closeEmpty: bool, rent: u64, groups: Groups)
    returns (r: Result<(seq<Transaction>, u64), Panic>, ghost steps: seq<Step>)
    ensures r.Err? <==> exists m :: m in groups && SanityFails(owner, closeEmpty, m, groups[m])
    ensures r.Err? ==> r.error == SanityCheck
    ensures r.Ok? ==> Schedule(owner, closeEmpty, groups, steps)
    ensures r.Ok? ==> r.value.0 == Txs(owner, steps)
    ensures r.Ok? ==> r.value.1 == AddedRent(rent, CountCreates(r.value.0))
  {
    var plan, lamports: u64 := [], 0;
    ghost var creates: nat := 0;
    steps := [];
    var mints := groups.Keys;
    while mints != {}
      invariant mints <= groups.Keys
      invariant Covers(owner, closeEmpty, groups, groups.Keys - mints, steps)
      invariant plan == Txs(owner, steps)
      invariant creates == CountCreates(plan)
      invariant lamports == AddedRent(rent, creates)
      invariant forall m :: m in groups && m !in mints ==> !SanityFails(owner, closeEmpty, m, groups[m])
      decreases mints
    {
      var m :| m in mints;
      var one, more := PlanToken(owner, closeEmpty, m, groups[m]);
      if one.Err? {
        return Err(one.error), steps;
      }
      PlanExtend(owner, closeEmpty, groups, mints, m, steps, more);
      if one.value.1 {
        lamports := AddRent(lamports, rent, creates);
        creates := creates + 1;
      }
      plan, steps, mints := plan + one.value.0, steps + more, mints - {m};
    }
    return Ok((plan, lamports)), steps;
  }
}
