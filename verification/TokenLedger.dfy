/**
  The on-chain side of the token command line: token accounts, the three instructions that garbage
  collection sends, and transactions that apply all of their instructions or none.
 */
module TokenLedger {
  import opened Wrappers
  import opened Sums

  const U64_SIZE: nat := 0x1_0000_0000_0000_0000

  type u64 = n: int | 0 <= n < 0x1_0000_0000_0000_0000

  /** Addresses. Deriving the associated address of a wallet and a mint is injective. */
  datatype Pubkey = Key(id: nat) | Associated(wallet: Pubkey, mint: Pubkey)

  datatype TokenAccount = TokenAccount(mint: Pubkey, owner: Pubkey, amount: nat, frozen: bool,
                                       closeAuthority: Option<Pubkey>)
  {
    /** Whoever may close the account: the close authority, or the owner when there is none. */
    function Closer(): Pubkey {
      if closeAuthority.Some? then closeAuthority.value else owner
    }
  }

  /** The token program's state: each mint's decimals, and the token accounts. */
  datatype Chain = Chain(mints: map<Pubkey, nat>, accounts: map<Pubkey, TokenAccount>)

  datatype Instruction =
    | CreateAssociated(wallet: Pubkey, mint: Pubkey)
    | TransferChecked(source: Pubkey, mint: Pubkey, destination: Pubkey, authority: Pubkey,
                      amount: nat, decimals: nat)
    | CloseAccount(account: Pubkey, destination: Pubkey, authority: Pubkey)

  type Transaction = seq<Instruction>

  function NewAccount(wallet: Pubkey, mint: Pubkey): TokenAccount {
    TokenAccount(mint, wallet, 0, false, None)
  }

  function Execute(c: Chain, i: Instruction): Option<Chain> {
    match i
    case CreateAssociated(wallet, mint) =>
      var a := Associated(wallet, mint);
      if mint !in c.mints || a in c.accounts then None
      else Some(c.(accounts := c.accounts[a := NewAccount(wallet, mint)]))
    case TransferChecked(s, mint, d, authority, amount, decimals) =>
      if s !in c.accounts || d !in c.accounts || mint !in c.mints then None else
      var from, to := c.accounts[s], c.accounts[d];
      if from.frozen || to.frozen || from.mint != mint || to.mint != mint || from.owner != authority
         || c.mints[mint] != decimals || from.amount < amount then None
      else if s == d then Some(c)
      else if to.amount + amount >= U64_SIZE then None
      else Some(c.(accounts := c.accounts[s := from.(amount := from.amount - amount)]
                                         [d := to.(amount := to.amount + amount)]))
    case CloseAccount(a, destination, authority) =>
      if a !in c.accounts || a == destination then None else
      var acc := c.accounts[a];
      if acc.amount != 0 || acc.Closer() != authority then None
      else Some(c.(accounts := c.accounts - {a}))
  }

  /** A transaction: every instruction in order, or no effect at all. */
  function Apply(c: Chain, tx: Transaction): Option<Chain>
    decreases |tx|
  {
    if tx == [] then Some(c) else
    var next := Execute(c, tx[0]);
    if next.None? then None else Apply(next.value, tx[1..])
  }

  /** Transactions sent one after the other; `None` when one of them is refused. */
  function Run(c: Chain, txs: seq<Transaction>): Option<Chain> {
    if txs == [] then Some(c) else
    var before := Run(c, txs[..|txs| - 1]);
    if before.None? then None else Apply(before.value, txs[|txs| - 1])
  }

  // ---- supply ----

  ghost function Holdings(c: Chain, mint: Pubkey): map<Pubkey, nat> {
    map a | a in c.accounts && c.accounts[a].mint == mint :: c.accounts[a].amount
  }

  /** What all accounts of one mint hold together. */
  ghost function Supply(c: Chain, mint: Pubkey): nat {
    Sum(Holdings(c, mint))
  }

  lemma CreateKeepsSupply(c: Chain, wallet: Pubkey, m: Pubkey, mint: Pubkey)
    requires Execute(c, CreateAssociated(wallet, m)).Some?
    ensures Supply(Execute(c, CreateAssociated(wallet, m)).value, mint) == Supply(c, mint)
  {
    var c', w := Execute(c, CreateAssociated(wallet, m)).value, Holdings(c, mint);
    var a := Associated(wallet, m);
    if m == mint {
      assert Holdings(c', mint) == w[a := 0];
      SumUpdate(w, a, 0);
    } else {
      assert Holdings(c', mint) == w;
    }
  }

  lemma TransferKeepsSupply(c: Chain, i: Instruction, mint: Pubkey)
    requires i.TransferChecked? && Execute(c, i).Some?
    ensures Supply(Execute(c, i).value, mint) == Supply(c, mint)
  {
    var c', w := Execute(c, i).value, Holdings(c, mint);
    var s, d := i.source, i.destination;
    if i.mint == mint && s != d {
      var w1 := w[s := w[s] - i.amount];
      assert Holdings(c', mint) == w1[d := w1[d] + i.amount];
      SumUpdate(w, s, w[s] - i.amount);
      SumUpdate(w1, d, w1[d] + i.amount);
    } else {
      assert Holdings(c', mint) == w;
    }
  }

  lemma CloseKeepsSupply(c: Chain, i: Instruction, mint: Pubkey)
    requires i.CloseAccount? && Execute(c, i).Some?
    ensures Supply(Execute(c, i).value, mint) == Supply(c, mint)
  {
    var c', w := Execute(c, i).value, Holdings(c, mint);
    if i.account in w {
      SumRemove(w, i.account);
      assert Holdings(c', mint) == w - {i.account};
    } else {
      assert Holdings(c', mint) == w;
    }
  }

  lemma ExecuteKeepsSupply(c: Chain, i: Instruction, mint: Pubkey)
    requires Execute(c, i).Some?
    ensures Supply(Execute(c, i).value, mint) == Supply(c, mint)
  {
    match i
    case CreateAssociated(wallet, m) => CreateKeepsSupply(c, wallet, m, mint);
    case TransferChecked(_, _, _, _, _, _) => TransferKeepsSupply(c, i, mint);
    case CloseAccount(_, _, _) => CloseKeepsSupply(c, i, mint);
  }

  lemma {:induction false} ApplyKeepsSupply(c: Chain, tx: Transaction, mint: Pubkey)
    requires Apply(c, tx).Some?
    ensures Supply(Apply(c, tx).value, mint) == Supply(c, mint)
    decreases tx
  {
    if tx != [] {
      ExecuteKeepsSupply(c, tx[0], mint);
      ApplyKeepsSupply(Execute(c, tx[0]).value, tx[1..], mint);
    }
  }

  /** Whatever transactions go through, no mint's total changes. */
  lemma {:induction false} RunKeepsSupply(c: Chain, txs: seq<Transaction>, mint: Pubkey)
    requires Run(c, txs).Some?
    ensures Supply(Run(c, txs).value, mint) == Supply(c, mint)
    decreases |txs|
  {
    if txs != [] {
      RunKeepsSupply(c, txs[..|txs| - 1], mint);
      ApplyKeepsSupply(Run(c, txs[..|txs| - 1]).value, txs[|txs| - 1], mint);
    }
  }

  // ---- accounts that nothing closes ----

  ghost predicate Closes(tx: Transaction, a: Pubkey) {
    exists k :: 0 <= k < |tx| && tx[k].CloseAccount? && tx[k].account == a
  }

  ghost predicate SameFlags(before: Chain, after: Chain, a: Pubkey)
    requires a in before.accounts
  {
    a in after.accounts && after.accounts[a] == before.accounts[a].(amount := after.accounts[a].amount)
  }

  lemma {:induction false} ApplyKeepsUnclosed(c: Chain, tx: Transaction, a: Pubkey)
    requires Apply(c, tx).Some? && a in c.accounts && !Closes(tx, a)
    ensures SameFlags(c, Apply(c, tx).value, a)
    decreases tx
  {
    if tx != [] {
      assert !(tx[0].CloseAccount? && tx[0].account == a);
      assert forall k :: 0 <= k < |tx| - 1 ==> tx[1..][k] == tx[k + 1];
      ApplyKeepsUnclosed(Execute(c, tx[0]).value, tx[1..], a);
    }
  }

  lemma {:induction false} RunKeepsUnclosed(c: Chain, txs: seq<Transaction>, a: Pubkey)
    requires Run(c, txs).Some? && a in c.accounts
    requires forall k :: 0 <= k < |txs| ==> !Closes(txs[k], a)
    ensures SameFlags(c, Run(c, txs).value, a)
    decreases |txs|
  {
    if txs != [] {
      RunKeepsUnclosed(c, txs[..|txs| - 1], a);
      ApplyKeepsUnclosed(Run(c, txs[..|txs| - 1]).value, txs[|txs| - 1], a);
    }
  }

  /** A run that goes through went through at every earlier point. */
  lemma {:induction false} RunPrefix(c: Chain, txs: seq<Transaction>, k: nat)
    requires k <= |txs| && Run(c, txs).Some?
    ensures Run(c, txs[..k]).Some?
    decreases |txs|
  {
    if k < |txs| {
      RunPrefix(c, txs[..|txs| - 1], k);
      assert txs[..|txs| - 1][..k] == txs[..k];
    } else {
      assert txs[..k] == txs;
    }
  }

  lemma RunFirst(c: Chain, p: seq<Transaction>, q: seq<Transaction>)
    requires Run(c, p + q).Some?
    ensures Run(c, p).Some?
  {
    assert (p + q)[..|p|] == p;
    RunPrefix(c, p + q, |p|);
  }

  // ---- what is refused ----

  /** Exactly which closes the token program refuses. */
  lemma CloseRefused(c: Chain, x: Pubkey, destination: Pubkey, authority: Pubkey)
    ensures Execute(c, CloseAccount(x, destination, authority)).None? <==>
      x !in c.accounts || x == destination || c.accounts[x].amount > 0 ||
      (c.accounts[x].closeAuthority == None && authority != c.accounts[x].owner) ||
      (c.accounts[x].closeAuthority.Some? && authority != c.accounts[x].closeAuthority.value)
  {}

  /** A transfer needs both accounts unfrozen and of its mint, the owner, the decimals and the balance. */
  lemma TransferNeeds(c: Chain, i: Instruction)
    requires i.TransferChecked? && Execute(c, i).Some?
    ensures i.source in c.accounts && i.destination in c.accounts && i.mint in c.mints
    ensures !c.accounts[i.source].frozen && !c.accounts[i.destination].frozen
    ensures c.accounts[i.source].mint == c.accounts[i.destination].mint == i.mint
    ensures c.accounts[i.source].owner == i.authority && c.mints[i.mint] == i.decimals
    ensures c.accounts[i.source].amount >= i.amount
  {}
}
