/** The garbage-collection command as a whole, and what it guarantees about the chain. */
module TokenGcCommand {
  import opened Wrappers
  import opened Sums
  import opened TokenLedger
  import opened TokenGc
  import opened TokenGcSafety

  // ---- where the balances end ----

  ghost function MissingAssociated(c: Chain, owner: Pubkey): set<Pubkey> {
    set m | m in c.mints && NeedsAssociated(c, owner, m)
  }

  ghost function AllSwept(c: Chain, owner: Pubkey, closeEmpty: bool): set<Pubkey> {
    set a | a in c.accounts && Swept(c, owner, closeEmpty, a)
  }

  ghost function AllClosed(c: Chain, owner: Pubkey, closeEmpty: bool): set<Pubkey> {
    set a | a in c.accounts && Swept(c, owner, closeEmpty, a) && c.accounts[a].Closer() == owner
  }

  /** The chain once everything is done, described without any order. */
  ghost function Outcome(c: Chain, owner: Pubkey, closeEmpty: bool): Chain {
    After(c, owner, MissingAssociated(c, owner), AllSwept(c, owner, closeEmpty), AllClosed(c, owner, closeEmpty))
  }

  /** The plan belongs to some walk over the two hash maps of the owner's accounts. */
  ghost predicate IsPlan(c: Chain, owner: Pubkey, closeEmpty: bool, plan: seq<Transaction>)
    requires ValidChain(c)
  {
    exists steps :: Orders(c, owner, closeEmpty, steps) && plan == Txs(owner, steps)
  }

  lemma AllMade(c: Chain, owner: Pubkey, closeEmpty: bool, steps: seq<Step>)
    requires ValidChain(c) && Orders(c, owner, closeEmpty, steps)
    ensures Made(steps) == MissingAssociated(c, owner)
  {
    forall m ensures m in Made(steps) <==> m in c.mints && NeedsAssociated(c, owner, m) {
      HeldMintExists(c, owner, m);
      assert Create(m) in steps <==> NeedsAssociated(c, owner, m);
    }
  }

  lemma AllMoved(c: Chain, owner: Pubkey, closeEmpty: bool, steps: seq<Step>)
    requires ValidChain(c) && Orders(c, owner, closeEmpty, steps)
    ensures Moved(steps) == AllSwept(c, owner, closeEmpty)
    ensures Closed(owner, steps) == AllClosed(c, owner, closeEmpty)
  {
    forall a | a in c.accounts
      ensures Sweep(c.accounts[a].mint, a, EntryOf(c, a)) in steps <==> Swept(c, owner, closeEmpty, a) {}
  }

  lemma OneStepCount(owner: Pubkey, s: Step)
    ensures CountCreates(Txs(owner, [s])) == if s.Create? then 1 else 0
  {
    hide TxOf, Txs, CountCreates;
    TxCreates(owner, s);
    OneTx(owner, s);
    CountOne(TxOf(owner, s));
  }

  lemma OneTx(owner: Pubkey, s: Step)
    ensures Txs(owner, [s]) == if TxOf(owner, s) == [] then [] else [TxOf(owner, s)]
  {
    hide TxOf;
    assert [s][..0] == [];
  }

  lemma CountOne(tx: Transaction)
    ensures CountCreates([]) == 0
    ensures CountCreates([tx]) == if |tx| == 1 && tx[0].CreateAssociated? then 1 else 0
  {
    assert [tx][..0] == [];
  }

  lemma TxCreates(owner: Pubkey, s: Step)
    ensures |TxOf(owner, s)| == 1 && TxOf(owner, s)[0].CreateAssociated? <==> s.Create?
  {}

  /** One create transaction per missing associated account. */
  lemma {:induction false} CreatesCounted(owner: Pubkey, steps: seq<Step>)
    requires Distinct(steps)
    ensures CountCreates(Txs(owner, steps)) == |Made(steps)|
    decreases |steps|
  {
    if steps == [] {
      assert Made(steps) == {};
    } else {
      var init, s := steps[..|steps| - 1], steps[|steps| - 1];
      assert steps == init + [s];
      CreatesCounted(owner, init);
      TxsConcat(owner, init, [s]);
      CountCreatesConcat(Txs(owner, init), Txs(owner, [s]));
      OneStepCount(owner, s);
      MadeCount(init, s);
    }
  }

  lemma MadeCount(init: seq<Step>, s: Step)
    requires s !in init
    ensures |Made(init + [s])| == |Made(init)| + if s.Create? then 1 else 0
  {
    if s.Create? {
      assert Made(init + [s]) == Made(init) + {s.mint};
      assert s.mint !in Made(init);
    } else {
      assert Made(init + [s]) == Made(init);
    }
  }

  /** Whatever the walk, the whole plan leads to the same chain. */
  lemma OrderDoesNotMatter(c: Chain, owner: Pubkey, closeEmpty: bool, plan: seq<Transaction>)
    requires ValidChain(c) && Ready(c, owner, closeEmpty) && IsPlan(c, owner, closeEmpty, plan)
    ensures Run(c, plan) == Some(Outcome(c, owner, closeEmpty))
  {
    var steps :| Orders(c, owner, closeEmpty, steps) && plan == Txs(owner, steps);
    PlanRuns(c, owner, closeEmpty, steps, |steps|);
    assert steps[..|steps|] == steps;
    AllMade(c, owner, closeEmpty, steps);
    AllMoved(c, owner, closeEmpty, steps);
  }

  /** Stopping after any number of transactions loses nothing: the prefix ran, and every supply is intact. */
  lemma EveryPrefixIsSafe(c: Chain, owner: Pubkey, closeEmpty: bool, plan: seq<Transaction>, k: nat)
    requires ValidChain(c) && Ready(c, owner, closeEmpty) && IsPlan(c, owner, closeEmpty, plan) && k <= |plan|
    ensures Run(c, plan[..k]).Some?
    ensures forall m :: Supply(Run(c, plan[..k]).value, m) == Supply(c, m)
  {
    OrderDoesNotMatter(c, owner, closeEmpty, plan);
    RunPrefix(c, plan, k);
    forall m {
      RunKeepsSupply(c, plan[..k], m);
    }
  }

  /** The unfrozen balances of one mint that are not on its associated account. */
  ghost function Loose(c: Chain, owner: Pubkey, m: Pubkey): map<Pubkey, nat> {
    map a | a in Owned(c, owner) && c.accounts[a].mint == m && !c.accounts[a].frozen && a != Associated(owner, m)
      :: c.accounts[a].amount
  }

  /** A mint the owner holds: its associated account ends with its own balance and all loose ones. */
  lemma HeldMintIsGathered(c: Chain, owner: Pubkey, closeEmpty: bool, m: Pubkey)
    requires ValidChain(c) && OwnedTotal(c, owner, m) > 0
    ensures var ata, end := Associated(owner, m), Outcome(c, owner, closeEmpty).accounts;
      && ata in end
      && end[ata].mint == m
      && end[ata].amount == (if ata in c.accounts then c.accounts[ata].amount else 0) + Sum(Loose(c, owner, m))
  {
    hide Sum, OwnedTotal, Supply;
    var ata := Associated(owner, m);
    var swept := AllSwept(c, owner, closeEmpty);
    HeldMintExists(c, owner, m);
    assert ata !in swept;
    assert MovedTo(c, swept, ata) == Loose(c, owner, m);
  }

  lemma NothingToReceive(c: Chain, owner: Pubkey, closeEmpty: bool, a: Pubkey)
    requires !(a.Associated? && a.wallet == owner && OwnedTotal(c, owner, a.mint) > 0)
    ensures Inflow(c, owner, AllSwept(c, owner, closeEmpty), a) == 0
  {
    if a.Associated? && a.wallet == owner {
      SumSubmap(MovedTo(c, AllSwept(c, owner, closeEmpty), a), OwnedAmounts(c, owner, a.mint));
    }
  }

  /** Every other account is left alone, emptied, or closed. */
  lemma OtherAccounts(c: Chain, owner: Pubkey, closeEmpty: bool, a: Pubkey)
    requires a in c.accounts
    requires !(a.Associated? && a.wallet == owner && OwnedTotal(c, owner, a.mint) > 0)
    ensures var end := Outcome(c, owner, closeEmpty).accounts;
      if !Swept(c, owner, closeEmpty, a) then a in end && end[a] == c.accounts[a]
      else if c.accounts[a].Closer() == owner then a !in end
      else a in end && end[a] == c.accounts[a].(amount := 0)
  {
    NothingToReceive(c, owner, closeEmpty, a);
  }

  // ---- what the plan touches ----

  lemma {:induction false} TxsCome(owner: Pubkey, steps: seq<Step>, tx: Transaction)
    requires tx in Txs(owner, steps)
    ensures exists s :: s in steps && tx == TxOf(owner, s)
    decreases |steps|
  {
    var last := steps[|steps| - 1];
    if tx in Txs(owner, steps[..|steps| - 1]) {
      TxsCome(owner, steps[..|steps| - 1], tx);
    } else {
      assert last in steps && tx == TxOf(owner, last);
    }
  }

  ghost predicate Touches(c: Chain, owner: Pubkey, closeEmpty: bool, i: Instruction) {
    match i
    case CreateAssociated(w, m) => w == owner && NeedsAssociated(c, owner, m)
    case TransferChecked(x, m, d, authority, amount, _) =>
      && Swept(c, owner, closeEmpty, x) && m == c.accounts[x].mint && d == Associated(owner, m)
      && x != d && amount == c.accounts[x].amount > 0 && authority == owner
    case CloseAccount(x, d, authority) =>
      Swept(c, owner, closeEmpty, x) && c.accounts[x].Closer() == d == authority == owner
  }

  lemma StepTouches(c: Chain, owner: Pubkey, closeEmpty: bool, s: Step, j: nat)
    requires ValidChain(c) && Wanted(c, owner, closeEmpty, s) && j < |TxOf(owner, s)|
    ensures Touches(c, owner, closeEmpty, TxOf(owner, s)[j])
  {
    if s.Sweep? && s.entry.amount > 0 {
      SumZero(OwnedAmounts(c, owner, s.mint));
      assert s.address in OwnedAmounts(c, owner, s.mint);
    }
  }

  /** Frozen accounts and associated accounts of held mints are never a source and never closed. */
  lemma TouchesOnlySwept(c: Chain, owner: Pubkey, closeEmpty: bool, plan: seq<Transaction>, i: nat, j: nat)
    requires ValidChain(c) && IsPlan(c, owner, closeEmpty, plan)
    requires i < |plan| && j < |plan[i]|
    ensures Touches(c, owner, closeEmpty, plan[i][j])
  {
    var steps :| Orders(c, owner, closeEmpty, steps) && plan == Txs(owner, steps);
    TxsCome(owner, steps, plan[i]);
    var s :| s in steps && plan[i] == TxOf(owner, s);
    StepTouches(c, owner, closeEmpty, s, j);
  }

  /** The planner's own assertion never fires on a truthful listing. */
  lemma SanityCheckNeverFires(c: Chain, owner: Pubkey, closeEmpty: bool, m: Pubkey)
    requires ValidChain(c) && m in GroupsOf(c, Owned(c, owner))
    ensures !SanityFails(owner, closeEmpty, m, GroupsOf(c, Owned(c, owner))[m])
  {
    var g, ata := GroupOf(c, Owned(c, owner), m), Associated(owner, m);
    assert GroupsOf(c, Owned(c, owner))[m] == g;
    GroupTotal(c, owner, m);
    SumZero(OwnedAmounts(c, owner, m));
    assert ata in g ==> ata in OwnedAmounts(c, owner, m) && OwnedAmounts(c, owner, m)[ata] == g[ata].amount;
  }

  // ---- exactly when the plan goes through ----

  lemma TxsPrefix(c: Chain, owner: Pubkey, steps: seq<Step>, n: nat)
    requires n <= |steps| && Run(c, Txs(owner, steps)).Some?
    ensures Run(c, Txs(owner, steps[..n])).Some?
  {
    hide Run, Txs;
    assert steps[..n] + steps[n..] == steps;
    TxsConcat(owner, steps[..n], steps[n..]);
    RunFirst(c, Txs(owner, steps[..n]), Txs(owner, steps[n..]));
  }

  lemma UnsweptIsNotClosed(c: Chain, owner: Pubkey, closeEmpty: bool, steps: seq<Step>, n: nat, a: Pubkey, k: nat)
    requires ValidChain(c) && Orders(c, owner, closeEmpty, steps) && n <= |steps|
    requires k < |Txs(owner, steps[..n])| && !Swept(c, owner, closeEmpty, a)
    ensures !Closes(Txs(owner, steps[..n])[k], a)
  {
    var tx := Txs(owner, steps[..n])[k];
    TxsCome(owner, steps[..n], tx);
    var s :| s in steps[..n] && tx == TxOf(owner, s);
    assert s in steps;
    forall j | 0 <= j < |tx| ensures !(tx[j].CloseAccount? && tx[j].account == a) {
      StepTouches(c, owner, closeEmpty, s, j);
    }
  }

  /** Reaching step `n`, an account that is not swept is still there, flags unchanged, and step `n` goes through. */
  lemma ReachStep(c: Chain, owner: Pubkey, closeEmpty: bool, steps: seq<Step>, n: nat, a: Pubkey) returns (now: Chain)
    requires ValidChain(c) && Orders(c, owner, closeEmpty, steps) && n < |steps|
    requires Run(c, Txs(owner, steps)).Some?
    requires a in c.accounts && !Swept(c, owner, closeEmpty, a)
    ensures SameFlags(c, now, a)
    ensures Apply(now, TxOf(owner, steps[n])).Some?
  {
    var txs := Txs(owner, steps[..n]);
    TxsPrefix(c, owner, steps, n);
    TxsPrefix(c, owner, steps, n + 1);
    RunNext(c, owner, steps, n);
    now := Run(c, txs).value;
    forall k | 0 <= k < |txs| ensures !Closes(txs[k], a) {
      UnsweptIsNotClosed(c, owner, closeEmpty, steps, n, a, k);
    }
    RunKeepsUnclosed(c, txs, a);
  }

  lemma TakenAddressFails(c: Chain, owner: Pubkey, closeEmpty: bool, steps: seq<Step>, m: Pubkey)
    requires ValidChain(c) && Orders(c, owner, closeEmpty, steps)
    requires NeedsAssociated(c, owner, m) && Associated(owner, m) in c.accounts
    ensures Run(c, Txs(owner, steps)).None?
  {
    if Run(c, Txs(owner, steps)).Some? {
      assert Create(m) in steps;
      var n :| 0 <= n < |steps| && steps[n] == Create(m);
      var now := ReachStep(c, owner, closeEmpty, steps, n, Associated(owner, m));
      assert false;
    }
  }

  lemma FrozenRefuses(c: Chain, owner: Pubkey, s: Step)
    requires s.Sweep? && s.entry.amount > 0
    requires Associated(owner, s.mint) in c.accounts && c.accounts[Associated(owner, s.mint)].frozen
    ensures Apply(c, TxOf(owner, s)).None?
  {}

  lemma FrozenTargetFails(c: Chain, owner: Pubkey, closeEmpty: bool, steps: seq<Step>, a: Pubkey)
    requires ValidChain(c) && Orders(c, owner, closeEmpty, steps)
    requires Swept(c, owner, closeEmpty, a) && c.accounts[a].amount > 0
    requires var ata := Associated(owner, c.accounts[a].mint); ata in c.accounts && c.accounts[ata].frozen
    ensures Run(c, Txs(owner, steps)).None?
  {
    hide Run, Txs, Apply, OwnedTotal, Supply;
    if Run(c, Txs(owner, steps)).Some? {
      var s := Sweep(c.accounts[a].mint, a, EntryOf(c, a));
      assert s in steps;
      var n :| 0 <= n < |steps| && steps[n] == s;
      var now := ReachStep(c, owner, closeEmpty, steps, n, Associated(owner, s.mint));
      FrozenRefuses(now, owner, s);
      assert false;
    }
  }

  /** Closing into the closed account is refused on every chain, and takes its transaction with it. */
  lemma {:induction false} SelfCloseRefused(c: Chain, tx: Transaction, x: Pubkey)
    requires CloseAccount(x, x, x) in tx
    ensures Apply(c, tx).None?
    decreases |tx|
  {
    if tx[0] != CloseAccount(x, x, x) && Execute(c, tx[0]).Some? {
      SelfCloseRefused(Execute(c, tx[0]).value, tx[1..], x);
    }
  }

  lemma SelfOwnedFails(c: Chain, owner: Pubkey, closeEmpty: bool, steps: seq<Step>)
    requires ValidChain(c) && Orders(c, owner, closeEmpty, steps)
    requires Swept(c, owner, closeEmpty, owner) && c.accounts[owner].Closer() == owner
    ensures Run(c, Txs(owner, steps)).None?
  {
    hide Run, Txs, Apply, OwnedTotal, Supply;
    if Run(c, Txs(owner, steps)).Some? {
      var s := Sweep(c.accounts[owner].mint, owner, EntryOf(c, owner));
      assert s in steps;
      var n :| 0 <= n < |steps| && steps[n] == s;
      TxsPrefix(c, owner, steps, n);
      TxsPrefix(c, owner, steps, n + 1);
      RunNext(c, owner, steps, n);
      SelfCloseRefused(Run(c, Txs(owner, steps[..n])).value, TxOf(owner, s), owner);
      assert false;
    }
  }

  /** Every planned transaction goes through if and only if the chain is ready. */
  lemma SucceedsIffReady(c: Chain, owner: Pubkey, closeEmpty: bool, plan: seq<Transaction>)
    requires ValidChain(c) && IsPlan(c, owner, closeEmpty, plan)
    ensures Run(c, plan).Some? <==> Ready(c, owner, closeEmpty)
  {
    if Ready(c, owner, closeEmpty) {
      OrderDoesNotMatter(c, owner, closeEmpty, plan);
    } else {
      var steps :| Orders(c, owner, closeEmpty, steps) && plan == Txs(owner, steps);
      if m :| NeedsAssociated(c, owner, m) && Associated(owner, m) in c.accounts {
        TakenAddressFails(c, owner, closeEmpty, steps, m);
      } else if Swept(c, owner, closeEmpty, owner) && c.accounts[owner].Closer() == owner {
        SelfOwnedFails(c, owner, closeEmpty, steps);
      } else {
        var a :| Swept(c, owner, closeEmpty, a) && c.accounts[a].amount > 0
          && Associated(owner, c.accounts[a].mint) in c.accounts
          && c.accounts[Associated(owner, c.accounts[a].mint)].frozen;
        FrozenTargetFails(c, owner, closeEmpty, steps, a);
      }
    }
  }

  /** A frozen associated account with a loose balance beside it: the command cannot finish. */
  lemma FrozenAssociatedBlocks() returns (c: Chain, owner: Pubkey)
    ensures ValidChain(c)
    ensures forall plan :: IsPlan(c, owner, false, plan) ==> Run(c, plan).None?
  {
    owner := Key(0);
    var mint, loose := Key(1), Key(2);
    var ata := Associated(owner, mint);
    c := Chain(map[mint := 6],
               map[ata := TokenAccount(mint, owner, 0, true, None),
                   loose := TokenAccount(mint, owner, 5, false, None)]);
    assert Supply(c, mint) < U64_SIZE by {
      assert Holdings(c, mint) == map[ata := 0, loose := 5];
      SumUpdate(map[], ata, 0);
      SumUpdate(map[ata := 0], loose, 5);
      assert map[][ata := 0][loose := 5] == map[ata := 0, loose := 5];
    }
    assert Swept(c, owner, false, loose) && c.accounts[ata].frozen;
    forall plan | IsPlan(c, owner, false, plan) ensures Run(c, plan).None? {
      SucceedsIffReady(c, owner, false, plan);
    }
  }

  /** An empty account that is its own owner: the close is refused, so the command cannot finish. */
  lemma SelfOwnedBlocks() returns (c: Chain, owner: Pubkey)
    ensures ValidChain(c)
    ensures forall plan :: IsPlan(c, owner, false, plan) ==> Run(c, plan).None?
  {
    owner := Key(0);
    var mint := Key(1);
    c := Chain(map[mint := 6], map[owner := TokenAccount(mint, owner, 0, false, None)]);
    assert Supply(c, mint) < U64_SIZE by {
      SumZero(Holdings(c, mint));
    }
    assert Swept(c, owner, false, owner) && c.accounts[owner].Closer() == owner;
    forall plan | IsPlan(c, owner, false, plan) ensures Run(c, plan).None? {
      SucceedsIffReady(c, owner, false, plan);
    }
  }

  // ---- the command ----

  /** Send the plan in order. Sending stops at the first refusal, or when the client gives up. */
  method SendAll(c: Chain, plan: seq<Transaction>, accepted: nat) returns (end: Chain, sent: nat)
    ensures sent <= |plan| && Run(c, plan[..sent]) == Some(end)
    ensures sent < |plan| ==> sent == accepted || Apply(end, plan[sent]).None?
  {
    end, sent := c, 0;
    while sent < |plan|
      invariant sent <= |plan| && Run(c, plan[..sent]) == Some(end)
    {
      if sent == accepted {
        return;
      }
      var next := Apply(end, plan[sent]);
      if next.None? {
        return;
      }
      assert plan[..sent + 1][..sent] == plan[..sent];
      end, sent := next.value, sent + 1;
    }
  }

  /** What a truthful listing gives the planner, and what its plan then does. */
  lemma CommandMeans(c: Chain, owner: Pubkey, listing: seq<KeyedAccount>, closeEmpty: bool, steps: seq<Step>)
    ensures ValidChain(c) && Lists(listing, c, owner) ==>
      && Grouped(listing, owner).Ok?
      && (forall m :: m in Grouped(listing, owner).value ==>
        !SanityFails(owner, closeEmpty, m, Grouped(listing, owner).value[m]))
      && (Schedule(owner, closeEmpty, Grouped(listing, owner).value, steps) ==>
           && IsPlan(c, owner, closeEmpty, Txs(owner, steps))
           && CountCreates(Txs(owner, steps)) == |MissingAssociated(c, owner)|)
  {
    if ValidChain(c) && Lists(listing, c, owner) {
      GroupingIsExact(listing, c, owner);
      forall m | m in GroupsOf(c, Owned(c, owner)) {
        SanityCheckNeverFires(c, owner, closeEmpty, m);
      }
      ScheduleOrders(c, owner, closeEmpty, steps);
      if Orders(c, owner, closeEmpty, steps) {
        CreatesCounted(owner, steps);
        AllMade(c, owner, closeEmpty, steps);
      }
    }
  }

  /** A sent prefix that cannot go on tells whether the chain was ready. */
  lemma SendMeans(c: Chain, owner: Pubkey, closeEmpty: bool, plan: seq<Transaction>, sent: nat, end: Chain)
    requires ValidChain(c) && IsPlan(c, owner, closeEmpty, plan)
    requires sent <= |plan| && Run(c, plan[..sent]) == Some(end)
    ensures sent == |plan| ==> Ready(c, owner, closeEmpty) && end == Outcome(c, owner, closeEmpty)
    ensures sent < |plan| && Apply(end, plan[sent]).None? ==> !Ready(c, owner, closeEmpty)
  {
    SucceedsIffReady(c, owner, closeEmpty, plan);
    if sent == |plan| {
      assert plan[..sent] == plan;
      OrderDoesNotMatter(c, owner, closeEmpty, plan);
    } else if Ready(c, owner, closeEmpty) {
      RunPrefix(c, plan, sent + 1);
      assert plan[..sent + 1][..sent] == plan[..sent];
    }
  }

  datatype Report = Finished(lamportsNeeded: u64) | Stopped(sent: nat) | Panicked(panic: Panic)

  /** `end` and `r` are what sending a plan leaves: all of it, or a prefix at whose end it was refused or given up. */
  ghost predicate Sent(c: Chain, plan: seq<Transaction>, accepted: nat, end: Chain, r: Report) {
    if r.Finished? then Run(c, plan) == Some(end)
    else r.Stopped? && r.sent < |plan| && Run(c, plan[..r.sent]) == Some(end) &&
         (r.sent == accepted || Apply(end, plan[r.sent]).None?)
  }

  /** The planner's own assertion fails for one of the groups. */
  ghost predicate SomeSanityFails(owner: Pubkey, closeEmpty: bool, groups: Groups) {
    exists m :: m in groups && SanityFails(owner, closeEmpty, m, groups[m])
  }

  /** What the command does with any listing: panic before sending, or send the plan of some walk. */
  ghost predicate CommandDoes(c: Chain, owner: Pubkey, listing: seq<KeyedAccount>, closeEmpty: bool, rent: u64,
                              accepted: nat, end: Chain, r: Report)
  {
    var grouped := Grouped(listing, owner);
    if grouped.Err? then end == c && r == Panicked(grouped.error)
    else if SomeSanityFails(owner, closeEmpty, grouped.value) then end == c && r == Panicked(SanityCheck)
    else exists steps ::
      && Schedule(owner, closeEmpty, grouped.value, steps)
      && Sent(c, Txs(owner, steps), accepted, end, r)
      && (r.Finished? ==> r.lamportsNeeded == AddedRent(rent, CountCreates(Txs(owner, steps))))
  }

  /** On a truthful listing of a valid chain, what the command does is what its plan does. */
  lemma CommandOutcome(c: Chain, owner: Pubkey, listing: seq<KeyedAccount>, closeEmpty: bool, rent: u64,
                       accepted: nat, end: Chain, r: Report)
    requires CommandDoes(c, owner, listing, closeEmpty, rent, accepted, end, r)
    requires ValidChain(c) && Lists(listing, c, owner)
    ensures r.Finished? ==>
      && Ready(c, owner, closeEmpty) && end == Outcome(c, owner, closeEmpty)
      && r.lamportsNeeded == AddedRent(rent, |MissingAssociated(c, owner)|)
    ensures !r.Finished? ==> r.Stopped? && exists plan ::
      && IsPlan(c, owner, closeEmpty, plan) && r.sent < |plan| && Run(c, plan[..r.sent]) == Some(end)
      && (r.sent == accepted || Apply(end, plan[r.sent]).None?)
    ensures r.Stopped? && Ready(c, owner, closeEmpty) ==> r.sent == accepted
  {
    hide Schedule, SanityFails, Grouped, Txs, ValidChain, Lists, Ready, IsPlan, Apply, Run;
    CommandMeans(c, owner, listing, closeEmpty, []);
    var steps :| Schedule(owner, closeEmpty, Grouped(listing, owner).value, steps)
      && Sent(c, Txs(owner, steps), accepted, end, r)
      && (r.Finished? ==> r.lamportsNeeded == AddedRent(rent, CountCreates(Txs(owner, steps))));
    CommandMeans(c, owner, listing, closeEmpty, steps);
    var plan := Txs(owner, steps);
    assert plan[..|plan|] == plan;
    SendMeans(c, owner, closeEmpty, plan, if r.Finished? then |plan| else r.sent, end);
  }

  /**
    Garbage-collect the owner's accounts. `accepted` is how many transactions get through before the
    client's connection or fee check gives up.
   */
  method CommandGc(c: Chain, owner: Pubkey, listing: seq<KeyedAccount>, closeEmpty: bool, rent: u64, accepted: nat)
    returns (end: Chain, r: Report)
    ensures CommandDoes(c, owner, listing, closeEmpty, rent, accepted, end, r)
    ensures forall m :: Supply(end, m) == Supply(c, m)
    ensures r.Panicked? ==> end == c
    ensures ValidChain(c) && Lists(listing, c, owner) ==> !r.Panicked?
    ensures ValidChain(c) && Lists(listing, c, owner) && r.Finished? ==>
      && Ready(c, owner, closeEmpty)
      && end == Outcome(c, owner, closeEmpty)
      && r.lamportsNeeded == AddedRent(rent, |MissingAssociated(c, owner)|)
    ensures ValidChain(c) && Lists(listing, c, owner) && r.Stopped? ==>
      exists plan ::
        && IsPlan(c, owner, closeEmpty, plan) && r.sent < |plan| && Run(c, plan[..r.sent]) == Some(end)
        && (r.sent == accepted || Apply(end, plan[r.sent]).None?)
    ensures ValidChain(c) && Lists(listing, c, owner) && r.Stopped? && Ready(c, owner, closeEmpty) ==>
      r.sent == accepted
  {
    hide Schedule, SanityFails, Grouped, Txs, ValidChain, Lists, Ready, IsPlan, Apply, Run, Supply, Outcome;
    end := c;
    var grouped := GroupByMint(listing, owner);
    if grouped.Err? {
      r := Panicked(grouped.error);
    } else {
      var planned, steps := Plan(owner, closeEmpty, rent, grouped.value);
      if planned.Err? {
        r := Panicked(planned.error);
      } else {
        var (plan, lamports) := planned.value;
        var sent;
        end, sent := SendAll(c, plan, accepted);
        assert plan[..|plan|] == plan;
        forall m {
          RunKeepsSupply(c, plan[..sent], m);
        }
        r := if sent == |plan| then Finished(lamports) else Stopped(sent);
        assert Sent(c, Txs(owner, steps), accepted, end, r);
      }
    }
    if ValidChain(c) && Lists(listing, c, owner) {
      CommandOutcome(c, owner, listing, closeEmpty, rent, accepted, end, r);
    }
  }
}
