/** Sorting the owner's token accounts for display: one group per mint, associated accounts first. */
module AccountSorting {
  import opened Wrappers
  import opened Sums
  import opened TokenListing

  datatype TokenAccount = TokenAccount(mint: string, balance: string)

  type KeyedAccount = RpcAccount<string, TokenAccount>

  datatype CliTokenAccount = CliTokenAccount(address: string, account: TokenAccount, isAssociated: bool)

  datatype Reason =
    | UnsupportedProgram(program: string)
    | NotATokenAccount
    | ParseFailure(message: string)
    | UnsupportedFormat

  datatype UnsupportedAccount = UnsupportedAccount(address: string, reason: Reason)

  /** The associated address of the owner for a mint, both as text; `None` when the mint does not parse. */
  type Derivation = string -> Option<string>

  // ---- where each input goes ----

  function Listed(associated: Derivation, k: KeyedAccount): CliTokenAccount
    requires IsTokenAccount(k)
  {
    var account := AccountOf(k);
    CliTokenAccount(k.pubkey, account, associated(account.mint) == Some(k.pubkey))
  }

  function Refused(k: KeyedAccount): UnsupportedAccount
    requires !IsTokenAccount(k)
  {
    UnsupportedAccount(k.pubkey,
                       match k.data
                       case NotJson => UnsupportedFormat
                       case Json(program, parsed) =>
                         if program != "spl-token" then UnsupportedProgram(program)
                         else if parsed.Malformed? then ParseFailure(parsed.message)
                         else NotATokenAccount)
  }

  /** The listed accounts of a mint, in input order. */
  function OfMint(associated: Derivation, accounts: seq<KeyedAccount>, mint: string): seq<CliTokenAccount> {
    if accounts == [] then [] else
    var before, k := OfMint(associated, accounts[..|accounts| - 1], mint), accounts[|accounts| - 1];
    if IsTokenAccount(k) && AccountOf(k).mint == mint then before + [Listed(associated, k)] else before
  }

  /** The refused accounts, in input order. */
  function AllRefused(accounts: seq<KeyedAccount>): seq<UnsupportedAccount> {
    if accounts == [] then [] else
    var before, k := AllRefused(accounts[..|accounts| - 1]), accounts[|accounts| - 1];
    if IsTokenAccount(k) then before else before + [Refused(k)]
  }

  // ---- the stable sort ----

  function OfKind(s: seq<CliTokenAccount>, isAssociated: bool): seq<CliTokenAccount> {
    if s == [] then [] else
    var before, last := OfKind(s[..|s| - 1], isAssociated), s[|s| - 1];
    if last.isAssociated == isAssociated then before + [last] else before
  }

  function AssociatedFirst(s: seq<CliTokenAccount>): seq<CliTokenAccount> {
    OfKind(s, true) + OfKind(s, false)
  }

  ghost predicate Sorted(s: seq<CliTokenAccount>) {
    forall i, j :: 0 <= i < j < |s| && s[j].isAssociated ==> s[i].isAssociated
  }

  lemma {:induction false} OfKindLength(s: seq<CliTokenAccount>)
    ensures |OfKind(s, true)| + |OfKind(s, false)| == |s|
    ensures multiset(OfKind(s, true)) + multiset(OfKind(s, false)) == multiset(s)
  {
    if s != [] {
      OfKindLength(s[..|s| - 1]);
      assert s == s[..|s| - 1] + [s[|s| - 1]];
    }
  }

  lemma {:induction false} OfKindHasKind(s: seq<CliTokenAccount>, isAssociated: bool)
    ensures forall i :: 0 <= i < |OfKind(s, isAssociated)| ==> OfKind(s, isAssociated)[i].isAssociated == isAssociated
  {
    if s != [] {
      OfKindHasKind(s[..|s| - 1], isAssociated);
    }
  }

  lemma {:induction false} OfOneKind(s: seq<CliTokenAccount>, isAssociated: bool)
    requires forall i :: 0 <= i < |s| ==> s[i].isAssociated == isAssociated
    ensures OfKind(s, isAssociated) == s && OfKind(s, !isAssociated) == []
  {
    if s != [] {
      OfOneKind(s[..|s| - 1], isAssociated);
      assert s == s[..|s| - 1] + [s[|s| - 1]];
    }
  }

  lemma {:induction false} OfKindOver(s: seq<CliTokenAccount>, t: seq<CliTokenAccount>, isAssociated: bool)
    ensures OfKind(s + t, isAssociated) == OfKind(s, isAssociated) + OfKind(t, isAssociated)
    decreases |t|
  {
    if t == [] {
      assert s + t == s;
    } else {
      OfKindOver(s, t[..|t| - 1], isAssociated);
      assert (s + t)[..|s + t| - 1] == s + t[..|t| - 1];
    }
  }

  /** Putting associated accounts first is a stable sort: ordered, and each kind keeps its order. */
  lemma AssociatedFirstIsStable(s: seq<CliTokenAccount>)
    ensures Sorted(AssociatedFirst(s))
    ensures multiset(AssociatedFirst(s)) == multiset(s)
    ensures forall b :: OfKind(AssociatedFirst(s), b) == OfKind(s, b)
  {
    OfKindHasKind(s, true);
    OfKindHasKind(s, false);
    OfKindLength(s);
    forall b ensures OfKind(AssociatedFirst(s), b) == OfKind(s, b) {
      OfKindOver(OfKind(s, true), OfKind(s, false), b);
      OfOneKind(OfKind(s, true), true);
      OfOneKind(OfKind(s, false), false);
    }
  }

  /** It is the only one, so any stable sort on that key computes it. */
  lemma {:induction false} StableSortIsUnique(t: seq<CliTokenAccount>)
    requires Sorted(t)
    ensures t == AssociatedFirst(t)
  {
    if t != [] {
      var before, last := t[..|t| - 1], t[|t| - 1];
      StableSortIsUnique(before);
      assert t == before + [last];
      if last.isAssociated {
        forall i | 0 <= i < |t| ensures t[i].isAssociated { }
        OfOneKind(t, true);
      }
    }
  }

  /** Both kinds appear in the same order in the two listings. */
  ghost predicate SameOrder(s: seq<CliTokenAccount>, t: seq<CliTokenAccount>) {
    OfKind(t, true) == OfKind(s, true) && OfKind(t, false) == OfKind(s, false)
  }

  lemma StableSortsAgree(s: seq<CliTokenAccount>, t: seq<CliTokenAccount>)
    ensures t == AssociatedFirst(s) <==> Sorted(t) && SameOrder(s, t)
  {
    AssociatedFirstIsStable(s);
    if Sorted(t) && SameOrder(s, t) {
      StableSortIsUnique(t);
    }
  }

  // ---- grouping ----

  type Groups = map<string, seq<CliTokenAccount>>

  function AddAccount(groups: Groups, a: CliTokenAccount): Groups {
    var mint := a.account.mint;
    groups[mint := if mint in groups then groups[mint] + [a] else [a]]
  }

  function Grouping(associated: Derivation, accounts: seq<KeyedAccount>): Groups {
    if accounts == [] then map[] else
    var before, k := Grouping(associated, accounts[..|accounts| - 1]), accounts[|accounts| - 1];
    if IsTokenAccount(k) then AddAccount(before, Listed(associated, k)) else before
  }

  /** The groups hold the listed accounts of exactly the mints that occur, in input order. */
  lemma {:induction false} GroupIsOfMint(associated: Derivation, accounts: seq<KeyedAccount>, mint: string)
    ensures mint in Grouping(associated, accounts) <==> OfMint(associated, accounts, mint) != []
    ensures mint in Grouping(associated, accounts) ==>
              Grouping(associated, accounts)[mint] == OfMint(associated, accounts, mint)
  {
    if accounts != [] {
      GroupIsOfMint(associated, accounts[..|accounts| - 1], mint);
    }
  }

  ghost function Sizes(groups: Groups): map<string, nat> {
    map m | m in groups :: |groups[m]|
  }

  lemma AddAccountSize(groups: Groups, a: CliTokenAccount)
    ensures Sum(Sizes(AddAccount(groups, a))) == Sum(Sizes(groups)) + 1
  {
    var mint := a.account.mint;
    var n := |AddAccount(groups, a)[mint]|;
    SumUpdate(Sizes(groups), mint, n);
    assert Sizes(AddAccount(groups, a)) == Sizes(groups)[mint := n];
  }

  lemma {:induction false} GroupsHoldAll(associated: Derivation, accounts: seq<KeyedAccount>)
    ensures Sum(Sizes(Grouping(associated, accounts))) + |AllRefused(accounts)| == |accounts|
  {
    hide AddAccount, IsTokenAccount;
    if accounts == [] {
      SumZero(Sizes(map[]));
    } else {
      var before, k := accounts[..|accounts| - 1], accounts[|accounts| - 1];
      GroupsHoldAll(associated, before);
      if IsTokenAccount(k) {
        AddAccountSize(Grouping(associated, before), Listed(associated, k));
      }
    }
  }

  // ---- the command's function ----

  ghost predicate IsMaximum(accounts: seq<KeyedAccount>, n: nat) {
    && (forall k :: k in accounts && IsTokenAccount(k) ==> |AccountOf(k).balance| <= n)
    && (n == 0 || exists k :: k in accounts && IsTokenAccount(k) && |AccountOf(k).balance| == n)
  }

  ghost predicate SomeMintUnparsed(associated: Derivation, accounts: seq<KeyedAccount>) {
    exists k :: k in accounts && IsTokenAccount(k) && associated(AccountOf(k).mint).None?
  }

  lemma NoAccounts(associated: Derivation)
    ensures Grouping(associated, []) == map[] && AllRefused([]) == []
    ensures IsMaximum([], 0) && !SomeMintUnparsed(associated, [])
  {}

  lemma ListingStep(associated: Derivation, accounts: seq<KeyedAccount>, k: KeyedAccount)
    ensures Grouping(associated, accounts + [k]) ==
            if IsTokenAccount(k) then AddAccount(Grouping(associated, accounts), Listed(associated, k))
            else Grouping(associated, accounts)
    ensures AllRefused(accounts + [k]) ==
            if IsTokenAccount(k) then AllRefused(accounts) else AllRefused(accounts) + [Refused(k)]
  {
    assert (accounts + [k])[..|accounts|] == accounts;
  }

  lemma MaximumStep(accounts: seq<KeyedAccount>, k: KeyedAccount, n: nat)
    requires IsMaximum(accounts, n)
    ensures IsTokenAccount(k) ==>
      IsMaximum(accounts + [k], if n < |AccountOf(k).balance| then |AccountOf(k).balance| else n)
    ensures !IsTokenAccount(k) ==> IsMaximum(accounts + [k], n)
  {}

  lemma UnparsedStep(associated: Derivation, accounts: seq<KeyedAccount>, k: KeyedAccount)
    ensures SomeMintUnparsed(associated, accounts + [k]) <==>
            SomeMintUnparsed(associated, accounts) || (IsTokenAccount(k) && associated(AccountOf(k).mint).None?)
  {}

  method SortGroups(groups: Groups) returns (r: Groups)
    ensures r.Keys == groups.Keys
    ensures forall m :: m in groups ==> r[m] == AssociatedFirst(groups[m])
  {
    r := groups;
    var todo := groups.Keys;
    while todo != {}
      invariant todo <= groups.Keys == r.Keys
      invariant forall m :: m in groups ==> r[m] == if m in todo then groups[m] else AssociatedFirst(groups[m])
      decreases todo
    {
      var m :| m in todo;
      r := r[m := AssociatedFirst(r[m])];
      todo := todo - {m};
    }
  }

  method SortAndParse(associated: Derivation, accounts: seq<KeyedAccount>)
    returns (groups: Groups, unsupported: seq<UnsupportedAccount>, longest: nat, includesAux: bool)
    ensures forall m :: m in groups <==> OfMint(associated, accounts, m) != []
    ensures forall m :: m in groups ==> groups[m] == AssociatedFirst(OfMint(associated, accounts, m))
    ensures unsupported == AllRefused(accounts)
    ensures Sum(Sizes(groups)) + |unsupported| == |accounts|
    ensures IsMaximum(accounts, longest)
    ensures includesAux == SomeMintUnparsed(associated, accounts)
  {
    hide IsTokenAccount, Listed, Refused, AddAccount, Grouping, AllRefused, IsMaximum, SomeMintUnparsed, OfMint,
      AssociatedFirst, Sum, Sizes;
    groups, unsupported, longest, includesAux := map[], [], 0, false;
    NoAccounts(associated);
    for i := 0 to |accounts|
      invariant groups == Grouping(associated, accounts[..i])
      invariant unsupported == AllRefused(accounts[..i])
      invariant IsMaximum(accounts[..i], longest)
      invariant includesAux == SomeMintUnparsed(associated, accounts[..i])
    {
      var k := accounts[i];
      assert accounts[..i + 1] == accounts[..i] + [k];
      ListingStep(associated, accounts[..i], k);
      MaximumStep(accounts[..i], k, longest);
      UnparsedStep(associated, accounts[..i], k);
      if IsTokenAccount(k) {
        if associated(AccountOf(k).mint).None? {
          includesAux := true;
        }
        var length := |AccountOf(k).balance|;
        longest := if longest < length then length else longest;
        groups := AddAccount(groups, Listed(associated, k));
      } else {
        unsupported := unsupported + [Refused(k)];
      }
    }
    assert accounts[..|accounts|] == accounts;
    groups := SortGroups(groups);
    SortedGroups(associated, accounts, groups);
  }

  lemma SortedGroups(associated: Derivation, accounts: seq<KeyedAccount>, sorted: Groups)
    requires sorted.Keys == Grouping(associated, accounts).Keys
    requires forall m :: m in sorted ==> sorted[m] == AssociatedFirst(Grouping(associated, accounts)[m])
    ensures forall m :: m in sorted <==> OfMint(associated, accounts, m) != []
    ensures forall m :: m in sorted ==> sorted[m] == AssociatedFirst(OfMint(associated, accounts, m))
    ensures Sum(Sizes(sorted)) + |AllRefused(accounts)| == |accounts|
  {
    hide Grouping, OfMint, AssociatedFirst, Sum, Sizes, AllRefused;
    GroupsHoldAll(associated, accounts);
    SortKeepsSizes(Grouping(associated, accounts), sorted);
    forall m ensures m in sorted <==> OfMint(associated, accounts, m) != []
             ensures m in sorted ==> sorted[m] == AssociatedFirst(OfMint(associated, accounts, m)) {
      GroupIsOfMint(associated, accounts, m);
    }
  }

  lemma SortKeepsSizes(groups: Groups, sorted: Groups)
    requires sorted.Keys == groups.Keys
    requires forall m :: m in groups ==> sorted[m] == AssociatedFirst(groups[m])
    ensures Sizes(sorted) == Sizes(groups)
  {
    forall m | m in groups ensures |sorted[m]| == |groups[m]| {
      OfKindLength(groups[m]);
    }
  }

  /** A group holds only accounts of its mint, marked associated exactly when they sit at the derived address. */
  lemma {:induction false} GroupHoldsItsMint(associated: Derivation, accounts: seq<KeyedAccount>, mint: string)
    ensures forall a :: a in OfMint(associated, accounts, mint) ==>
      && a.account.mint == mint && (a.isAssociated <==> associated(mint) == Some(a.address))
      && exists k :: k in accounts && IsTokenAccount(k) && k.pubkey == a.address && AccountOf(k) == a.account
  {
    if accounts != [] {
      var before := accounts[..|accounts| - 1];
      GroupHoldsItsMint(associated, before, mint);
      forall a | a in OfMint(associated, accounts, mint)
        ensures a.account.mint == mint && (a.isAssociated <==> associated(mint) == Some(a.address))
        ensures exists k :: k in accounts && IsTokenAccount(k) && k.pubkey == a.address && AccountOf(k) == a.account
      {
        if a in OfMint(associated, before, mint) {
          var k :| k in before && IsTokenAccount(k) && k.pubkey == a.address && AccountOf(k) == a.account;
          assert k in accounts;
        } else {
          var k := accounts[|accounts| - 1];
          assert k in accounts;
        }
      }
    }
  }

  /** How many of the inputs are not token accounts. */
  function RefusedCount(accounts: seq<KeyedAccount>): nat {
    if accounts == [] then 0
    else RefusedCount(accounts[..|accounts| - 1]) + if IsTokenAccount(accounts[|accounts| - 1]) then 0 else 1
  }

  /** Each refused input stands in input order, under its own address, with the reason that applies first. */
  lemma {:induction false} RefusedInOrder(accounts: seq<KeyedAccount>, i: nat)
    requires i < |accounts| && !IsTokenAccount(accounts[i])
    ensures |AllRefused(accounts)| == RefusedCount(accounts) > RefusedCount(accounts[..i])
    ensures var u, k := AllRefused(accounts)[RefusedCount(accounts[..i])], accounts[i];
      && u.address == k.pubkey
      && (u.reason == UnsupportedFormat <==> k.data.NotJson?)
      && (k.data.Json? && k.data.program != "spl-token" ==> u.reason == UnsupportedProgram(k.data.program))
      && (k.data.Json? && k.data.program == "spl-token" && k.data.parsed.Malformed? ==>
            u.reason == ParseFailure(k.data.parsed.message))
      && (k.data.Json? && k.data.program == "spl-token" && k.data.parsed.OtherType? ==> u.reason == NotATokenAccount)
    decreases |accounts|
  {
    var before := accounts[..|accounts| - 1];
    RefusedLength(before);
    if i < |before| {
      assert before[..i] == accounts[..i];
      RefusedInOrder(before, i);
    } else {
      assert before == accounts[..i];
    }
  }

  lemma {:induction false} RefusedLength(accounts: seq<KeyedAccount>)
    ensures |AllRefused(accounts)| == RefusedCount(accounts)
  {
    if accounts != [] {
      RefusedLength(accounts[..|accounts| - 1]);
    }
  }
}
