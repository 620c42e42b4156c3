/**
 What the lists of withdrawals and deposits of an exchange say about one of them
 (internal/pipeline/exchange_node.go:210-231, 410-503).
 */
module Histories {

  /** One row of a list of withdrawals: the exchange's own ID, and the hash on the chain once there is one. */
  datatype WithdrawRecord = WithdrawRecord(id: string, status: string, txHash: string)

  /** One row of a list of deposits: the hash on the chain. */
  datatype DepositRecord = DepositRecord(txHash: string, status: string)

  datatype Status = NoAnswer | NotFound | Pending | Done | Rejected

  /** An answer about a withdrawal: none, a list, or what the chain says of a transaction. */
  datatype Report = Silent | History(records: seq<WithdrawRecord>) | OnChain(status: Status)

  predicate IsHexDigit(c: char) {
    '0' <= c <= '9' || 'a' <= c <= 'f' || 'A' <= c <= 'F'
  }

  /** What follows the prefix, if there is one. */
  function AfterPrefix(s: string): string {
    if |s| >= 2 && s[0] == '0' && (s[1] == 'x' || s[1] == 'X') then s[2..] else s
  }

  /** 64 hexadecimal digits, with or without the prefix. */
  predicate IsChainHash(s: string) {
    |AfterPrefix(s)| == 64 && forall i :: 0 <= i < |AfterPrefix(s)| ==> IsHexDigit(AfterPrefix(s)[i])
  }

  /** A hash is 64 hexadecimal digits, alone or after 0x or 0X. */
  lemma ChainHashIff(s: string)
    ensures IsChainHash(s) <==>
            exists hex: string ::
              |hex| == 64 && (forall c <- hex :: c in "0123456789abcdefABCDEF") && s in {hex, "0x" + hex, "0X" + hex}
  {
    forall c: char ensures IsHexDigit(c) <==> c in "0123456789abcdefABCDEF" {
      DigitIsListed(c);
    }
    if IsChainHash(s) {
      var hex := AfterPrefix(s);
      assert s == hex || s == "0x" + hex || s == "0X" + hex;
      forall c | c in hex ensures c in "0123456789abcdefABCDEF" {
        var i :| 0 <= i < |hex| && hex[i] == c;
        assert IsHexDigit(hex[i]);
      }
    }
    if hex: string :| |hex| == 64 && (forall c <- hex :: c in "0123456789abcdefABCDEF") && s in {hex, "0x" + hex, "0X" + hex} {
      assert hex[1] in hex;
      assert |s| == 66 ==> s[2..] == hex;
      assert forall i :: 0 <= i < |hex| ==> hex[i] in hex;
    }
  }

  lemma DigitIsListed(c: char)
    ensures IsHexDigit(c) <==> c in "0123456789abcdefABCDEF"
  {
    var digits := "0123456789abcdefABCDEF";
    if '0' <= c <= '9' {
      assert digits[c as int - '0' as int] == c;
    } else if 'a' <= c <= 'f' {
      assert digits[10 + (c as int - 'a' as int)] == c;
    } else if 'A' <= c <= 'F' {
      assert digits[16 + (c as int - 'A' as int)] == c;
    }
  }

  /** A finished row, a failed one, and any other, which counts as finished once it has a hash on the chain. */
  function StatusOfRow(r: WithdrawRecord): Status {
    if r.status == "COMPLETED" then Done
    else if r.status in {"REJECTED", "FAILED", "CANCELED"} then Rejected
    else if IsChainHash(r.txHash) then Done
    else Pending
  }

  /** Row `k` is the first with the ID. */
  ghost predicate FirstWithdrawal(records: seq<WithdrawRecord>, id: string, k: nat) {
    k < |records| && records[k].id == id && forall i :: 0 <= i < k ==> records[i].id != id
  }

  ghost predicate FirstDeposit(records: seq<DepositRecord>, txHash: string, k: nat) {
    k < |records| && records[k].txHash == txHash && forall i :: 0 <= i < k ==> records[i].txHash != txHash
  }

  function WithdrawalStatus(records: seq<WithdrawRecord>, id: string): Status {
    if records == [] then NotFound
    else if records[0].id == id then StatusOfRow(records[0])
    else WithdrawalStatus(records[1..], id)
  }

  /** A deposit is done when the first row with its hash is not pending. */
  predicate DepositDone(records: seq<DepositRecord>, txHash: string) {
    records != [] &&
    if records[0].txHash == txHash then records[0].status != "PENDING" else DepositDone(records[1..], txHash)
  }

  function StatusIn(report: Report, id: string): Status {
    match report
    case Silent => NoAnswer
    case History(records) => WithdrawalStatus(records, id)
    case OnChain(status) => status
  }

  method FindWithdrawal(records: seq<WithdrawRecord>, id: string) returns (status: Status)
    ensures status == WithdrawalStatus(records, id)
  {
    for i := 0 to |records|
      invariant WithdrawalStatus(records[i..], id) == WithdrawalStatus(records, id)
    {
      var r := records[i];
      if r.id != id {
        assert records[i..][1..] == records[i + 1..];
        continue;
      }
      if r.status == "COMPLETED" {
        return Done;
      } else if r.status == "REJECTED" || r.status == "FAILED" || r.status == "CANCELED" {
        return Rejected;
      }
      return if IsChainHash(r.txHash) then Done else Pending;
    }
    assert records[|records|..] == [];
    return NotFound;
  }

  method FindDeposit(records: seq<DepositRecord>, txHash: string) returns (done: bool)
    ensures done == DepositDone(records, txHash)
  {
    for i := 0 to |records|
      invariant DepositDone(records[i..], txHash) == DepositDone(records, txHash)
    {
      if records[i].txHash == txHash {
        return records[i].status != "PENDING";
      }
      assert records[i..][1..] == records[i + 1..];
    }
    assert records[|records|..] == [];
    return false;
  }

  /** The first row with the ID decides, and no other; without one the withdrawal is not found. */
  lemma {:induction false} FirstRowDecides(records: seq<WithdrawRecord>, id: string)
    ensures WithdrawalStatus(records, id) == NotFound <==> forall i :: 0 <= i < |records| ==> records[i].id != id
    ensures forall k: nat :: FirstWithdrawal(records, id, k) ==> WithdrawalStatus(records, id) == StatusOfRow(records[k])
  {
    if records != [] && records[0].id != id {
      var rest := records[1..];
      FirstRowDecides(rest, id);
      forall k: nat | FirstWithdrawal(records, id, k) ensures WithdrawalStatus(records, id) == StatusOfRow(records[k]) {
        assert records[k] == rest[k - 1] && FirstWithdrawal(rest, id, k - 1);
      }
      if forall i :: 0 <= i < |rest| ==> rest[i].id != id {
        assert forall i :: 0 < i < |records| ==> records[i] == rest[i - 1];
      } else {
        var i :| 0 <= i < |rest| && rest[i].id == id;
        assert records[i + 1].id == id;
      }
    }
  }

  /** A deposit is done exactly when there is a first row with its hash and it is not pending. */
  lemma {:induction false} DepositDoneIff(records: seq<DepositRecord>, txHash: string)
    ensures DepositDone(records, txHash) <==> exists k: nat :: FirstDeposit(records, txHash, k) && records[k].status != "PENDING"
  {
    if records == [] {
    } else if records[0].txHash == txHash {
      assert FirstDeposit(records, txHash, 0);
    } else {
      var rest := records[1..];
      DepositDoneIff(rest, txHash);
      if k: nat :| FirstDeposit(records, txHash, k) && records[k].status != "PENDING" {
        assert records[k] == rest[k - 1] && FirstDeposit(rest, txHash, k - 1);
      }
      if k: nat :| FirstDeposit(rest, txHash, k) && rest[k].status != "PENDING" {
        assert FirstDeposit(records, txHash, k + 1) && records[k + 1] == rest[k];
      }
    }
  }
}
