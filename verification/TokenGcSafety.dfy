/**
  What the garbage-collection plan does to the chain, for every order in which its hash maps are
  walked: when every transaction goes through, where the balances end, and that no total changes.
 */
module TokenGcSafety {
  import opened Wrappers
  import opened Sums
  import opened TokenLedger
  import opened TokenListing
  import opened TokenGc

  // ---- the chain and its listing ----

  ghost predicate KnownMints(c: Chain) {
    forall a :: a in c.accounts ==> c.accounts[a].mint in c.mints
  }

  /** Token program invariants: supplies are u64, and a derived address holds the mint it was derived from. */
  ghost predicate ValidChain(c: Chain) {
    && KnownMints(c)
    && (forall a :: a in c.accounts && a.Associated? ==> c.accounts[a].mint == a.mint)
    && (forall m :: m in c.mints ==> Supply(c, m) < U64_SIZE)
  }

  ghost function Owned(c: Chain, owner: Pubkey): set<Pubkey> {
    set a | a in c.accounts && c.accounts[a].owner == owner
  }

  ghost function EntryOf(c: Chain, a: Pubkey): Entry
    requires a in c.accounts && c.accounts[a].mint in c.mints
  {
    var acc := c.accounts[a];
    Entry(acc.amount, c.mints[acc.mint], acc.frozen, acc.Closer())
  }

  /** `k` is a truthful report of one of the owner's accounts. */
  ghost predicate Reports(k: KeyedAccount, c: Chain, owner: Pubkey)
    requires IsTokenAccount(k)
  {
    && k.pubkey.Some?
    && k.pubkey.value in Owned(c, owner)
    && var acc, p := c.accounts[k.pubkey.value], AccountOf(k);
    && p.mint == Some(acc.mint)
    && p.amount.Some? && p.amount.value == acc.amount
    && acc.mint in c.mints && p.decimals == c.mints[acc.mint]
    && p.frozen == acc.frozen
    && p.closeAuthority == if acc.closeAuthority.None? then None else Some(acc.closeAuthority)
  }

  ghost function Seen(listing: seq<KeyedAccount>): set<Pubkey> {
    set k | k in listing && IsTokenAccount(k) && k.pubkey.Some? :: k.pubkey.value
  }

  /** The node's answer lists the owner's token accounts, in any order; other entries are ignored. */
  ghost predicate Lists(listing: seq<KeyedAccount>, c: Chain, owner: Pubkey) {
    && (forall k :: k in listing && IsTokenAccount(k) ==> Reports(k, c, owner))
    && Seen(listing) == Owned(c, owner)
  }

  ghost function MintsOf(c: Chain, addresses: set<Pubkey>): set<Pubkey> {
    set a | a in addresses && a in c.accounts :: c.accounts[a].mint
  }

  ghost function GroupOf(c: Chain, addresses: set<Pubkey>, m: Pubkey): map<Pubkey, Entry>
    requires KnownMints(c)
  {
    map a | a in addresses && a in c.accounts && c.accounts[a].mint == m :: EntryOf(c, a)
  }

  ghost function GroupsOf(c: Chain, addresses: set<Pubkey>): Groups
    requires KnownMints(c)
  {
    map m | m in MintsOf(c, addresses) :: GroupOf(c, addresses, m)
  }

  lemma GroupsAdd(c: Chain, addresses: set<Pubkey>, a: Pubkey)
    requires KnownMints(c) && a in c.accounts
    ensures GroupsOf(c, addresses + {a}) ==
            AddRow(GroupsOf(c, addresses), Row(c.accounts[a].mint, a, EntryOf(c, a)))
  {
    var m := c.accounts[a].mint;
    assert MintsOf(c, addresses + {a}) == MintsOf(c, addresses) + {m};
    assert m !in MintsOf(c, addresses) ==> GroupOf(c, addresses, m) == map[];
    assert GroupOf(c, addresses + {a}, m) == GroupOf(c, addresses, m)[a := EntryOf(c, a)];
    forall m' | m' != m
      ensures GroupOf(c, addresses + {a}, m') == GroupOf(c, addresses, m') {}
  }

  lemma SeenAdd(listing: seq<KeyedAccount>, k: KeyedAccount)
    ensures Seen(listing + [k]) ==
            Seen(listing) + if IsTokenAccount(k) && k.pubkey.Some? then {k.pubkey.value} else {}
  {}

  lemma ReadsReported(k: KeyedAccount, c: Chain, owner: Pubkey)
    requires KnownMints(c) && IsTokenAccount(k) && Reports(k, c, owner)
    ensures ReadAccount(k, owner) ==
      Ok(Some(Row(c.accounts[k.pubkey.value].mint, k.pubkey.value, EntryOf(c, k.pubkey.value))))
  {}

  /** Grouping a truthful listing gives exactly the listed accounts, by mint. */
  lemma {:induction false} GroupingIsExact(listing: seq<KeyedAccount>, c: Chain, owner: Pubkey)
    requires KnownMints(c)
    requires forall k :: k in listing && IsTokenAccount(k) ==> Reports(k, c, owner)
    ensures Grouped(listing, owner) == Ok(GroupsOf(c, Seen(listing)))
    decreases |listing|
  {
    if listing == [] {
      assert MintsOf(c, Seen(listing)) == {};
    } else {
      var init, k := listing[..|listing| - 1], listing[|listing| - 1];
      assert listing == init + [k];
      SeenAdd(init, k);
      GroupingIsExact(init, c, owner);
      assert k in listing;
      if IsTokenAccount(k) {
        ReadsReported(k, c, owner);
        GroupsAdd(c, Seen(init), k.pubkey.value);
      } else {
        assert Seen(listing) == Seen(init);
      }
    }
  }

  // ---- the plan in terms of the chain ----

  ghost function OwnedAmounts(c: Chain, owner: Pubkey, m: Pubkey): map<Pubkey, nat> {
    map a | a in Owned(c, owner) && c.accounts[a].mint == m :: c.accounts[a].amount
  }

  ghost function OwnedTotal(c: Chain, owner: Pubkey, m: Pubkey): nat {
    Sum(OwnedAmounts(c, owner, m))
  }

  /** The owner holds tokens of `m` but not its associated account. */
  ghost predicate NeedsAssociated(c: Chain, owner: Pubkey, m: Pubkey) {
    OwnedTotal(c, owner, m) > 0 && Associated(owner, m) !in Owned(c, owner)
  }

  /** Unfrozen, and not the associated account unless it is empty and asked to be closed. */
  ghost predicate Swept(c: Chain, owner: Pubkey, closeEmpty: bool, a: Pubkey) {
    && a in Owned(c, owner)
    && !c.accounts[a].frozen
    && (a == Associated(owner, c.accounts[a].mint) ==> closeEmpty && OwnedTotal(c, owner, c.accounts[a].mint) == 0)
  }

  ghost predicate Wanted(c: Chain, owner: Pubkey, closeEmpty: bool, s: Step)
    requires ValidChain(c)
  {
    match s
    case Create(m) => NeedsAssociated(c, owner, m)
    case Sweep(m, a, e) => Swept(c, owner, closeEmpty, a) && m == c.accounts[a].mint && e == EntryOf(c, a)
  }

  lemma TotalFits(c: Chain, owner: Pubkey, m: Pubkey)
    requires ValidChain(c)
    ensures OwnedTotal(c, owner, m) < U64_SIZE
  {
    if m in c.mints {
      SumSubmap(OwnedAmounts(c, owner, m), Holdings(c, m));
    } else {
      assert OwnedAmounts(c, owner, m) == map[];
    }
  }

  lemma GroupTotal(c: Chain, owner: Pubkey, m: Pubkey)
    requires ValidChain(c)
    ensures WrappedTotal(GroupOf(c, Owned(c, owner), m)) == OwnedTotal(c, owner, m)
    ensures m !in MintsOf(c, Owned(c, owner)) ==> OwnedTotal(c, owner, m) == 0
  {
    TotalFits(c, owner, m);
    assert Amounts(GroupOf(c, Owned(c, owner), m)) == OwnedAmounts(c, owner, m);
    if m !in MintsOf(c, Owned(c, owner)) {
      assert OwnedAmounts(c, owner, m) == map[];
    }
  }

  /** The planner, which only sees the groups, plans exactly what the chain calls for. */
  lemma PlannedIsWanted(c: Chain, owner: Pubkey, closeEmpty: bool, s: Step)
    requires ValidChain(c)
    ensures Planned(owner, closeEmpty, GroupsOf(c, Owned(c, owner)), s) <==> Wanted(c, owner, closeEmpty, s)
  {
    GroupTotal(c, owner, s.mint);
    assert Associated(owner, s.mint) in GroupOf(c, Owned(c, owner), s.mint) <==>
           Associated(owner, s.mint) in Owned(c, owner);
  }

  // ---- the chain part-way through the plan ----

  ghost function MovedTo(c: Chain, moved: set<Pubkey>, ata: Pubkey): map<Pubkey, nat>
    requires ata.Associated?
  {
    map a | a in moved && a in c.accounts && c.accounts[a].mint == ata.mint && a != ata :: c.accounts[a].amount
  }

  /** What account `a` has received once the accounts in `moved` are emptied. */
  ghost function Inflow(c: Chain, owner: Pubkey, moved: set<Pubkey>, a: Pubkey): nat {
    if a.Associated? && a.wallet == owner then Sum(MovedTo(c, moved, a)) else 0
  }

  ghost function Settled(c: Chain, owner: Pubkey, moved: set<Pubkey>, a: Pubkey): TokenAccount {
    var base := if a in c.accounts then c.accounts[a]
                else NewAccount(owner, if a.Associated? then a.mint else a);
    base.(amount := (if a in moved then 0 else base.amount) + Inflow(c, owner, moved, a))
  }

  ghost function Addresses(c: Chain, owner: Pubkey, made: set<Pubkey>, closed: set<Pubkey>): set<Pubkey> {
    c.accounts.Keys + (set m | m in made :: Associated(owner, m)) - closed
  }

  /**
    The chain after creating the associated accounts of the mints in `made`, emptying the accounts in
    `moved` and closing those in `closed`, whatever the order.
   */
  ghost function After(c: Chain, owner: Pubkey, made: set<Pubkey>, moved: set<Pubkey>, closed: set<Pubkey>): Chain {
    c.(accounts := map a | a in Addresses(c, owner, made, closed) :: Settled(c, owner, moved, a))
  }

  lemma InflowAdd(c: Chain, owner: Pubkey, moved: set<Pubkey>, x: Pubkey, a: Pubkey)
    requires x in c.accounts && x !in moved
    ensures Inflow(c, owner, moved + {x}, a) ==
            Inflow(c, owner, moved, a) +
            if a == Associated(owner, c.accounts[x].mint) && a != x then c.accounts[x].amount else 0
  {
    if a.Associated? && a.wallet == owner {
      var before, after := MovedTo(c, moved, a), MovedTo(c, moved + {x}, a);
      if a.mint == c.accounts[x].mint && a != x {
        assert after == before[x := c.accounts[x].amount];
        SumUpdate(before, x, c.accounts[x].amount);
      } else {
        assert after == before;
      }
    }
  }

  lemma AfterStart(c: Chain, owner: Pubkey)
    ensures After(c, owner, {}, {}, {}) == c
  {}

  /** A swept account never receives anything. */
  lemma SweptGetsNothing(c: Chain, owner: Pubkey, closeEmpty: bool, moved: set<Pubkey>, x: Pubkey)
    requires ValidChain(c) && Swept(c, owner, closeEmpty, x)
    requires forall a :: a in moved ==> Swept(c, owner, closeEmpty, a)
    ensures Inflow(c, owner, moved, x) == 0
  {
    if x.Associated? && x.wallet == owner {
      var w := OwnedAmounts(c, owner, x.mint);
      SumZero(w);
      SumSubmap(MovedTo(c, moved, x), w);
    }
  }

  lemma CreateStep(c: Chain, owner: Pubkey, made: set<Pubkey>, moved: set<Pubkey>, closed: set<Pubkey>, m: Pubkey)
    requires m in c.mints && m !in made && Associated(owner, m) !in c.accounts && Associated(owner, m) !in closed
    requires forall a :: a in moved && a in c.accounts ==> c.accounts[a].mint != m
    requires Associated(owner, m) !in moved
    ensures Execute(After(c, owner, made, moved, closed), CreateAssociated(owner, m)) ==
            Some(After(c, owner, made + {m}, moved, closed))
  {
    var ata := Associated(owner, m);
    assert MovedTo(c, moved, ata) == map[];
    assert Settled(c, owner, moved, ata) == NewAccount(owner, m);
    assert Addresses(c, owner, made + {m}, closed) == Addresses(c, owner, made, closed) + {ata};
    assert After(c, owner, made + {m}, moved, closed).accounts ==
           After(c, owner, made, moved, closed).accounts[ata := NewAccount(owner, m)];
  }

  lemma SettledMove(c: Chain, owner: Pubkey, moved: set<Pubkey>, x: Pubkey, a: Pubkey)
    requires x in c.accounts && x !in moved && Inflow(c, owner, moved, x) == 0
    requires x != Associated(owner, c.accounts[x].mint)
    ensures var was := Settled(c, owner, moved, a);
      Settled(c, owner, moved + {x}, a) ==
      if a == x then c.accounts[x].(amount := 0)
      else if a == Associated(owner, c.accounts[x].mint) then was.(amount := was.amount + c.accounts[x].amount)
      else was
  {
    InflowAdd(c, owner, moved, x, a);
  }

  lemma AfterMove(c: Chain, owner: Pubkey, made: set<Pubkey>, moved: set<Pubkey>, closed: set<Pubkey>, x: Pubkey)
    requires x in c.accounts && x !in moved && x !in closed && Inflow(c, owner, moved, x) == 0
    requires x != Associated(owner, c.accounts[x].mint)
    requires Associated(owner, c.accounts[x].mint) in Addresses(c, owner, made, closed)
    ensures var acc, ata := c.accounts[x], Associated(owner, c.accounts[x].mint);
      var now, to := After(c, owner, made, moved, closed).accounts, Settled(c, owner, moved, ata);
      && x in now && now[x] == acc && ata in now && now[ata] == to
      && After(c, owner, made, moved + {x}, closed).accounts ==
         now[x := acc.(amount := 0)][ata := to.(amount := to.amount + acc.amount)]
  {
    forall a | a in Addresses(c, owner, made, closed) {
      SettledMove(c, owner, moved, x, a);
    }
  }

  lemma TransferStep(c: Chain, owner: Pubkey, made: set<Pubkey>, moved: set<Pubkey>, closed: set<Pubkey>, x: Pubkey)
    requires KnownMints(c) && x in c.accounts && c.accounts[x].owner == owner && x !in moved && x !in closed
    requires !c.accounts[x].frozen && Inflow(c, owner, moved, x) == 0
    requires var ata := Associated(owner, c.accounts[x].mint);
      && ata != x && ata in Addresses(c, owner, made, closed)
      && (ata in c.accounts ==> c.accounts[ata].mint == ata.mint && !c.accounts[ata].frozen)
      && Settled(c, owner, moved, ata).amount + c.accounts[x].amount < U64_SIZE
    ensures Execute(After(c, owner, made, moved, closed),
                    TransferChecked(x, c.accounts[x].mint, Associated(owner, c.accounts[x].mint), owner,
                                    c.accounts[x].amount, c.mints[c.accounts[x].mint]))
            == Some(After(c, owner, made, moved + {x}, closed))
  {
    AfterMove(c, owner, made, moved, closed, x);
  }

  lemma EmptyStep(c: Chain, owner: Pubkey, made: set<Pubkey>, moved: set<Pubkey>, closed: set<Pubkey>, x: Pubkey)
    requires x in c.accounts && x !in moved && c.accounts[x].amount == 0
    ensures After(c, owner, made, moved + {x}, closed) == After(c, owner, made, moved, closed)
  {
    forall a ensures Settled(c, owner, moved + {x}, a) == Settled(c, owner, moved, a) {
      InflowAdd(c, owner, moved, x, a);
    }
  }

  lemma CloseStep(c: Chain, owner: Pubkey, made: set<Pubkey>, moved: set<Pubkey>, closed: set<Pubkey>, x: Pubkey)
    requires x in c.accounts && x in moved && x !in closed && x != owner
    requires c.accounts[x].Closer() == owner && Inflow(c, owner, moved, x) == 0
    requires forall m :: m in made ==> x != Associated(owner, m)
    ensures Execute(After(c, owner, made, moved, closed), CloseAccount(x, owner, owner)) ==
            Some(After(c, owner, made, moved, closed + {x}))
  {
    assert Addresses(c, owner, made, closed + {x}) == Addresses(c, owner, made, closed) - {x};
    assert After(c, owner, made, moved, closed + {x}).accounts == After(c, owner, made, moved, closed).accounts - {x};
  }

  // ---- when the plan goes through ----

  /**
    Nobody else holds the address of an associated account to create, no frozen associated account is to
    receive tokens, and no account to close is its own owner, since its rent would go to itself.
   */
  ghost predicate Ready(c: Chain, owner: Pubkey, closeEmpty: bool) {
    && (forall m :: NeedsAssociated(c, owner, m) ==> Associated(owner, m) !in c.accounts)
    && (forall a :: Swept(c, owner, closeEmpty, a) && c.accounts[a].amount > 0
          && Associated(owner, c.accounts[a].mint) in c.accounts
          ==> !c.accounts[Associated(owner, c.accounts[a].mint)].frozen)
    && (forall a :: Swept(c, owner, closeEmpty, a) && c.accounts[a].Closer() == owner ==> a != owner)
  }

  /** The wanted steps, each once, associated accounts before the accounts that pay into them. */
  ghost predicate Orders(c: Chain, owner: Pubkey, closeEmpty: bool, steps: seq<Step>)
    requires ValidChain(c)
  {
    && Distinct(steps)
    && CreatesFirst(steps)
    && forall s: Step :: s in steps <==> Wanted(c, owner, closeEmpty, s)
  }

  lemma ScheduleOrders(c: Chain, owner: Pubkey, closeEmpty: bool, steps: seq<Step>)
    requires ValidChain(c)
    ensures Schedule(owner, closeEmpty, GroupsOf(c, Owned(c, owner)), steps) <==> Orders(c, owner, closeEmpty, steps)
  {
    forall s: Step
      ensures s.mint in GroupsOf(c, Owned(c, owner)) && Planned(owner, closeEmpty, GroupsOf(c, Owned(c, owner)), s)
              <==> Wanted(c, owner, closeEmpty, s)
    {
      PlannedIsWanted(c, owner, closeEmpty, s);
    }
  }

  ghost function Made(steps: seq<Step>): set<Pubkey> {
    set s | s in steps && s.Create? :: s.mint
  }

  ghost function Moved(steps: seq<Step>): set<Pubkey> {
    set s | s in steps && s.Sweep? :: s.address
  }

  ghost function Closed(owner: Pubkey, steps: seq<Step>): set<Pubkey> {
    set s | s in steps && s.Sweep? && s.entry.closeAuthority == owner :: s.address
  }

  ghost function Progress(c: Chain, owner: Pubkey, steps: seq<Step>): Chain {
    After(c, owner, Made(steps), Moved(steps), Closed(owner, steps))
  }

  lemma ProgressAdd(c: Chain, owner: Pubkey, steps: seq<Step>, s: Step)
    ensures Made(steps + [s]) == Made(steps) + if s.Create? then {s.mint} else {}
    ensures Moved(steps + [s]) == Moved(steps) + if s.Sweep? then {s.address} else {}
    ensures Closed(owner, steps + [s]) ==
            Closed(owner, steps) + if s.Sweep? && s.entry.closeAuthority == owner then {s.address} else {}
  {}

  /** Facts about the work done before step `n`. */
  lemma BeforeStep(c: Chain, owner: Pubkey, closeEmpty: bool, steps: seq<Step>, n: nat)
    requires ValidChain(c) && Orders(c, owner, closeEmpty, steps) && n < |steps|
    ensures forall a :: a in Moved(steps[..n]) ==> Swept(c, owner, closeEmpty, a)
    ensures Closed(owner, steps[..n]) <= Moved(steps[..n])
    ensures forall m :: m in Made(steps[..n]) ==> NeedsAssociated(c, owner, m)
    ensures steps[n].Create? ==> steps[n].mint !in Made(steps[..n])
    ensures steps[n].Create? ==>
      forall a :: a in Moved(steps[..n]) && a in c.accounts ==> c.accounts[a].mint != steps[n].mint
    ensures steps[n].Sweep? ==> steps[n].address !in Moved(steps[..n])
    ensures steps[n].Sweep? && NeedsAssociated(c, owner, steps[n].mint) ==> steps[n].mint in Made(steps[..n])
  {
    forall s | s in steps[..n] ensures Wanted(c, owner, closeEmpty, s) {
      assert s in steps;
    }
    assert steps[n] in steps;
    if steps[n].Create? {
      forall s | s in steps[..n] ensures s.mint != steps[n].mint {
        var i :| 0 <= i < n && steps[i] == s;
      }
    } else {
      forall s | s in steps[..n] && s.Sweep? ensures s.address != steps[n].address {
        var i :| 0 <= i < n && steps[i] == s;
        assert steps[i] != steps[n];
      }
      if NeedsAssociated(c, owner, steps[n].mint) {
        var create := Create(steps[n].mint);
        assert create in steps;
        var j :| 0 <= j < |steps| && steps[j] == create;
        assert j < n;
        assert create in steps[..n];
      }
    }
  }

  lemma AtaStays(c: Chain, owner: Pubkey, closeEmpty: bool, steps: seq<Step>, n: nat)
    requires ValidChain(c) && Orders(c, owner, closeEmpty, steps) && n < |steps|
    requires steps[n].Sweep? && steps[n].entry.amount > 0
    ensures var ata := Associated(owner, steps[n].mint);
      ata != steps[n].address &&
      ata in Addresses(c, owner, Made(steps[..n]), Closed(owner, steps[..n]))
  {
    BeforeStep(c, owner, closeEmpty, steps, n);
    var s := steps[n];
    assert s in steps;
    var ata := Associated(owner, s.mint);
    SumZero(OwnedAmounts(c, owner, s.mint));
    assert s.address in OwnedAmounts(c, owner, s.mint);
    assert OwnedTotal(c, owner, s.mint) > 0;
    assert ata !in Moved(steps[..n]);
  }

  /** The associated account has room: both balances belong to one u64 supply. */
  lemma RoomForTransfer(c: Chain, owner: Pubkey, now: Chain, x: Pubkey, ata: Pubkey, m: Pubkey)
    requires ValidChain(c) && m in c.mints && Supply(now, m) == Supply(c, m)
    requires x in now.accounts && ata in now.accounts && x != ata
    requires now.accounts[x].mint == m && now.accounts[ata].mint == m
    ensures now.accounts[ata].amount + now.accounts[x].amount < U64_SIZE
  {
    SumTwo(Holdings(now, m), x, ata);
  }

  lemma ApplyOne(c: Chain, i: Instruction)
    ensures Apply(c, [i]) == Execute(c, i)
  {}

  lemma ApplyTwo(c: Chain, i: Instruction, j: Instruction)
    requires Execute(c, i).Some?
    ensures Apply(c, [i, j]) == Execute(Execute(c, i).value, j)
  {
    assert [i, j][1..] == [j];
    ApplyOne(Execute(c, i).value, j);
  }

  lemma ApplyAppend(c: Chain, tx: Transaction, i: Instruction)
    requires |tx| <= 1 && Apply(c, tx).Some?
    ensures Apply(c, tx + [i]) == Execute(Apply(c, tx).value, i)
  {
    if tx == [] {
      assert tx + [i] == [i];
      ApplyOne(c, i);
    } else {
      assert tx == [tx[0]] && tx + [i] == [tx[0], i];
      ApplyOne(c, tx[0]);
      ApplyTwo(c, tx[0], i);
    }
  }

  lemma HeldMintExists(c: Chain, owner: Pubkey, m: Pubkey)
    requires KnownMints(c)
    ensures OwnedTotal(c, owner, m) > 0 ==> m in c.mints
  {}

  lemma CreateStepRuns(c: Chain, owner: Pubkey, closeEmpty: bool, steps: seq<Step>, n: nat)
    requires ValidChain(c) && Ready(c, owner, closeEmpty) && Orders(c, owner, closeEmpty, steps)
    requires n < |steps| && steps[n].Create?
    ensures Apply(Progress(c, owner, steps[..n]), TxOf(owner, steps[n])) == Some(Progress(c, owner, steps[..n + 1]))
  {
    hide After, Made, Moved, Closed, OwnedTotal, Execute;
    var done, s := steps[..n], steps[n];
    assert steps[..n + 1] == done + [s] && s in steps;
    BeforeStep(c, owner, closeEmpty, steps, n);
    ProgressAdd(c, owner, done, s);
    HeldMintExists(c, owner, s.mint);
    CreateStep(c, owner, Made(done), Moved(done), Closed(owner, done), s.mint);
    ApplyOne(Progress(c, owner, done), CreateAssociated(owner, s.mint));
    assert Moved(done) + {} == Moved(done) && Closed(owner, done) + {} == Closed(owner, done);
  }

  /** The transfer half of a sweep: the balance reaches the associated account. */
  lemma MoveRuns(c: Chain, owner: Pubkey, closeEmpty: bool, steps: seq<Step>, n: nat)
    requires ValidChain(c) && Ready(c, owner, closeEmpty) && Orders(c, owner, closeEmpty, steps)
    requires n < |steps| && steps[n].Sweep? && steps[n].entry.amount > 0
    requires Supply(Progress(c, owner, steps[..n]), steps[n].mint) == Supply(c, steps[n].mint)
    ensures Execute(Progress(c, owner, steps[..n]), TxOf(owner, steps[n])[0]) ==
            Some(After(c, owner, Made(steps[..n]), Moved(steps[..n]) + {steps[n].address}, Closed(owner, steps[..n])))
  {
    var done, s := steps[..n], steps[n];
    var ata := Associated(owner, s.mint);
    assert s in steps;
    BeforeStep(c, owner, closeEmpty, steps, n);
    AtaStays(c, owner, closeEmpty, steps, n);
    SweptGetsNothing(c, owner, closeEmpty, Moved(done), s.address);
    RoomForTransfer(c, owner, Progress(c, owner, done), s.address, ata, s.mint);
    TransferStep(c, owner, Made(done), Moved(done), Closed(owner, done), s.address);
  }

  /** The first half of a sweep, as the transaction runs it. */
  lemma SweepMoves(c: Chain, owner: Pubkey, closeEmpty: bool, steps: seq<Step>, n: nat)
    requires ValidChain(c) && Ready(c, owner, closeEmpty) && Orders(c, owner, closeEmpty, steps)
    requires n < |steps| && steps[n].Sweep?
    requires Supply(Progress(c, owner, steps[..n]), steps[n].mint) == Supply(c, steps[n].mint)
    ensures Apply(Progress(c, owner, steps[..n]),
                  if steps[n].entry.amount > 0 then [TxOf(owner, steps[n])[0]] else []) ==
            Some(After(c, owner, Made(steps[..n]), Moved(steps[..n]) + {steps[n].address}, Closed(owner, steps[..n])))
  {
    var done, s := steps[..n], steps[n];
    assert s in steps;
    if s.entry.amount > 0 {
      var i := TxOf(owner, s)[0];
      MoveRuns(c, owner, closeEmpty, steps, n);
      ApplyOne(Progress(c, owner, done), i);
    } else {
      BeforeStep(c, owner, closeEmpty, steps, n);
      EmptyStep(c, owner, Made(done), Moved(done), Closed(owner, done), s.address);
    }
  }

  /** The second half: the emptied account is closed. */
  lemma SweepCloses(c: Chain, owner: Pubkey, closeEmpty: bool, steps: seq<Step>, n: nat)
    requires ValidChain(c) && Ready(c, owner, closeEmpty) && Orders(c, owner, closeEmpty, steps)
    requires n < |steps| && steps[n].Sweep? && steps[n].entry.closeAuthority == owner
    ensures var x, done := steps[n].address, steps[..n];
      Execute(After(c, owner, Made(done), Moved(done) + {x}, Closed(owner, done)), CloseAccount(x, owner, owner)) ==
      Some(After(c, owner, Made(done), Moved(done) + {x}, Closed(owner, done) + {x}))
  {
    var done, s := steps[..n], steps[n];
    var x := s.address;
    assert s in steps;
    BeforeStep(c, owner, closeEmpty, steps, n);
    SweptGetsNothing(c, owner, closeEmpty, Moved(done) + {x}, x);
    CloseStep(c, owner, Made(done), Moved(done) + {x}, Closed(owner, done), x);
  }

  /** One sweep: whatever the account needs, its transaction goes through. */
  lemma SweepStepRuns(c: Chain, owner: Pubkey, closeEmpty: bool, steps: seq<Step>, n: nat)
    requires ValidChain(c) && Ready(c, owner, closeEmpty) && Orders(c, owner, closeEmpty, steps)
    requires n < |steps| && steps[n].Sweep?
    requires Supply(Progress(c, owner, steps[..n]), steps[n].mint) == Supply(c, steps[n].mint)
    ensures Apply(Progress(c, owner, steps[..n]), TxOf(owner, steps[n])) == Some(Progress(c, owner, steps[..n + 1]))
  {
    var done, s := steps[..n], steps[n];
    var tx := TxOf(owner, s);
    assert steps[..n + 1] == done + [s];
    ProgressAdd(c, owner, done, s);
    assert Made(done) + {} == Made(done) && Closed(owner, done) + {} == Closed(owner, done);
    SweepMoves(c, owner, closeEmpty, steps, n);
    var transfers := if s.entry.amount > 0 then [tx[0]] else [];
    if s.entry.closeAuthority == owner {
      SweepCloses(c, owner, closeEmpty, steps, n);
      ApplyAppend(Progress(c, owner, done), transfers, CloseAccount(s.address, owner, owner));
      assert tx == transfers + [CloseAccount(s.address, owner, owner)];
    } else {
      assert tx == transfers;
    }
  }

  lemma RunNext(c: Chain, owner: Pubkey, steps: seq<Step>, n: nat)
    requires n < |steps| && Run(c, Txs(owner, steps[..n])).Some?
    ensures Run(c, Txs(owner, steps[..n + 1])) == Apply(Run(c, Txs(owner, steps[..n])).value, TxOf(owner, steps[n]))
  {
    var before, tx := Txs(owner, steps[..n]), TxOf(owner, steps[n]);
    assert steps[..n + 1][..n] == steps[..n];
    if tx == [] {
      assert before + [] == before;
    } else {
      assert (before + [tx])[..|before|] == before;
    }
  }

  /** After any number of steps, the chain is what the steps add up to. */
  lemma {:induction false} PlanRuns(c: Chain, owner: Pubkey, closeEmpty: bool, steps: seq<Step>, n: nat)
    requires ValidChain(c) && Ready(c, owner, closeEmpty) && Orders(c, owner, closeEmpty, steps) && n <= |steps|
    ensures Run(c, Txs(owner, steps[..n])) == Some(Progress(c, owner, steps[..n]))
  {
    if n == 0 {
      assert Made([]) == Moved([]) == Closed(owner, []) == {};
      AfterStart(c, owner);
    } else {
      PlanRuns(c, owner, closeEmpty, steps, n - 1);
      RunKeepsSupply(c, Txs(owner, steps[..n - 1]), steps[n - 1].mint);
      RunNext(c, owner, steps, n - 1);
      if steps[n - 1].Create? {
        CreateStepRuns(c, owner, closeEmpty, steps, n - 1);
      } else {
        SweepStepRuns(c, owner, closeEmpty, steps, n - 1);
      }
    }
  }
}
