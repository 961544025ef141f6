/** Waiting for a transaction: the client's bounded polling loop, and the statuses playnet answers it with. */
module Confirmation {
  import opened Wrappers

  datatype Level = Processed | Confirmed | Finalized

  datatype Status = Status(level: Option<Level>, confirmations: nat, slot: nat, err: Option<string>)

  /** The commitment asked for; every other level accepts any status. */
  datatype Commitment = AskFinalized | AskConfirmed | AskOther

  const MAX_RETRIES: nat := 5

  // ---- the polling loop ----

  type Answer = Result<Option<Status>, string>

  predicate Matches(wanted: Commitment, level: Level) {
    match wanted
    case AskFinalized => level.Finalized?
    case AskConfirmed => level.Finalized? || level.Confirmed?
    case AskOther => true
  }

  predicate Reaches(wanted: Commitment, a: Answer) {
    a.Ok? && a.value.Some? && a.value.value.level.Some? && Matches(wanted, a.value.value.level.value)
  }

  /** The poll after which the loop ends: the first that fails or reaches the commitment. */
  ghost predicate Decides(wanted: Commitment, poll: nat -> Answer, k: nat) {
    && (poll(k).Err? || Reaches(wanted, poll(k)))
    && forall i :: 0 <= i < k ==> poll(i).Ok? && !Reaches(wanted, poll(i))
  }

  method Confirm(wanted: Commitment, poll: nat -> Answer) returns (r: Result<bool, string>)
    ensures forall k :: 0 <= k < MAX_RETRIES && Decides(wanted, poll, k) ==>
              r == if poll(k).Err? then Err(poll(k).error) else Ok(poll(k).value.value.err.None?)
    ensures (forall k :: 0 <= k < 5 ==> !Decides(wanted, poll, k)) ==> r == Ok(false)
    ensures MAX_RETRIES == 5
    ensures r == Ok(true) <==>
            exists k :: 0 <= k < MAX_RETRIES && Decides(wanted, poll, k) && poll(k).Ok? && poll(k).value.value.err.None?
  {
    var success := false;
    for i := 0 to MAX_RETRIES
      invariant !success
      invariant forall j :: 0 <= j < i ==> poll(j).Ok? && !Reaches(wanted, poll(j))
    {
      var answer := poll(i);
      if answer.Err? {
        assert Decides(wanted, poll, i);
        return Err(answer.error);
      }
      if answer.value.Some? {
        var status := answer.value.value;
        if status.level.Some? {
          if Matches(wanted, status.level.value) {
            assert Decides(wanted, poll, i);
            success := status.err.None?;
            break;
          }
        }
      }
    }
    return Ok(success);
  }

  // ---- playnet's answers ----

  type Slot = n: nat | n < 0x1_0000_0000_0000_0000

  datatype TxData = TxData(slot: Slot, err: Option<string>)

  datatype Bank = Bank(slot: Slot, txs: map<string, TxData>)

  predicate ValidBank(b: Bank) {
    forall s :: s in b.txs ==> b.txs[s].slot <= b.slot
  }

  /** The u64 difference of two slots; it wraps around. */
  function Age(now: Slot, slot: Slot): nat {
    if slot <= now then now - slot else now + 0x1_0000_0000_0000_0000 - slot
  }

  /** The age is the difference modulo the u64 range. */
  lemma AgeIs(now: Slot, slot: Slot)
    ensures Age(now, slot) < 0x1_0000_0000_0000_0000
    ensures Age(now, slot) + slot == now || Age(now, slot) + slot == now + 0x1_0000_0000_0000_0000
  {}

  /** The status of a transaction by its age in slots. */
  function StatusAt(b: Bank, signature: string): Option<Status> {
    if signature !in b.txs then None else
    var tx := b.txs[signature];
    var confirmations := Age(b.slot, tx.slot);
    var level := if confirmations == 0 then Processed else if confirmations < 32 then Confirmed else Finalized;
    Some(Status(Some(level), confirmations, tx.slot, tx.err))
  }

  /** A status carries the recorded slot and outcome, and how many slots ago that was. */
  lemma StatusIs(b: Bank, signature: string)
    requires ValidBank(b)
    ensures StatusAt(b, signature).Some? <==> signature in b.txs
    ensures signature in b.txs ==>
      var status, tx := StatusAt(b, signature).value, b.txs[signature];
      && status.slot == tx.slot && status.err == tx.err && status.slot + status.confirmations == b.slot
      && (status.level == Some(Processed) <==> b.slot == tx.slot)
      && (status.level == Some(Finalized) <==> b.slot >= tx.slot + 32)
      && status.level.Some?
  {}

  /** Later banks have seen at least as many slots and keep what they recorded. */
  ghost predicate Evolves(banks: nat -> Bank) {
    && (forall i :: ValidBank(banks(i)))
    && (forall i, j :: 0 <= i <= j ==> banks(i).slot <= banks(j).slot)
    && (forall i, j, s :: 0 <= i <= j && s in banks(i).txs ==> s in banks(j).txs && banks(j).txs[s] == banks(i).txs[s])
  }

  function Rank(level: Level): nat {
    match level case Processed => 0 case Confirmed => 1 case Finalized => 2
  }

  /** How many slots old a transaction must be. */
  function NeededAge(wanted: Commitment): nat {
    match wanted case AskOther => 0 case AskConfirmed => 1 case AskFinalized => 32
  }

  /** A status never goes back: once known it stays known, its level only rises, its outcome is fixed. */
  lemma StatusNeverRegresses(banks: nat -> Bank, signature: string, i: nat, j: nat)
    requires Evolves(banks) && i <= j && StatusAt(banks(i), signature).Some?
    ensures var a, b := StatusAt(banks(i), signature).value, StatusAt(banks(j), signature);
            && b.Some? && b.value.slot == a.slot && b.value.err == a.err && a.confirmations <= b.value.confirmations
            && b.value.level.Some? && Rank(a.level.value) <= Rank(b.value.level.value)
  {}

  lemma ReachesByAge(wanted: Commitment, b: Bank, signature: string)
    ensures Reaches(wanted, Ok(StatusAt(b, signature))) <==>
            signature in b.txs && Age(b.slot, b.txs[signature].slot) >= NeededAge(wanted)
  {}

  function PollOf(banks: nat -> Bank, signature: string): nat -> Answer {
    (i: nat) => Ok(StatusAt(banks(i), signature))
  }

  lemma {:induction false} SomePollDecides(wanted: Commitment, poll: nat -> Answer, k: nat)
    requires poll(k).Err? || Reaches(wanted, poll(k))
    ensures exists i :: 0 <= i <= k && Decides(wanted, poll, i)
  {
    if !Decides(wanted, poll, k) {
      var i :| 0 <= i < k && (poll(i).Err? || Reaches(wanted, poll(i)));
      SomePollDecides(wanted, poll, i);
    }
  }

  /** Whether the transaction is there, old enough and without an error. */
  predicate Settled(wanted: Commitment, b: Bank, signature: string) {
    signature in b.txs && Age(b.slot, b.txs[signature].slot) >= NeededAge(wanted) && b.txs[signature].err.None?
  }

  /** On playnet the loop's verdict is what its last poll alone would say. */
  lemma LastPollTells(wanted: Commitment, banks: nat -> Bank, signature: string)
    requires Evolves(banks)
    ensures Settled(wanted, banks(MAX_RETRIES - 1), signature) <==>
            exists k :: 0 <= k < MAX_RETRIES && Decides(wanted, PollOf(banks, signature), k) &&
                        PollOf(banks, signature)(k).Ok? && PollOf(banks, signature)(k).value.value.err.None?
  {
    var poll, last := PollOf(banks, signature), MAX_RETRIES - 1;
    if k :| 0 <= k < MAX_RETRIES && Decides(wanted, poll, k) && poll(k).Ok? && poll(k).value.value.err.None? {
      ReachesByAge(wanted, banks(k), signature);
      StatusNeverRegresses(banks, signature, k, last);
    }
    if Settled(wanted, banks(last), signature) {
      ReachesByAge(wanted, banks(last), signature);
      SomePollDecides(wanted, poll, last);
      var k :| 0 <= k <= last && Decides(wanted, poll, k);
      StatusNeverRegresses(banks, signature, k, last);
    }
  }

  /** The client against playnet: true exactly when the transaction is settled by the last poll, and never an error. */
  method ConfirmOnPlaynet(wanted: Commitment, banks: nat -> Bank, signature: string) returns (r: Result<bool, string>)
    requires Evolves(banks)
    ensures r == Ok(Settled(wanted, banks(MAX_RETRIES - 1), signature))
  {
    r := Confirm(wanted, PollOf(banks, signature));
    LastPollTells(wanted, banks, signature);
  }
}
