/** What the controller exchanges with the insurance contract: the calls
    it makes, the claim record it reads, and the receipts of confirmed
    transactions with their decoded event arguments. The contract itself
    is not part of this model; every answer it gives is an input. */
module Ledger {
  import opened Digits
  import opened JsValues

  /** A decoded event argument: a `uint256`/`int256` (a BigInt), a `bool`,
      or an `address`/`string`. */
  datatype EventArg = IntArg(i: int) | BoolArg(f: bool) | TextArg(t: string)

  /** A confirmed transaction: its hash, its block, and the arguments of
      each event it emitted, in order. */
  datatype Receipt = Receipt(hash: string, block: nat, logs: seq<seq<EventArg>>)

  /** The stored claim; only the requested amount (in wei) matters here. */
  datatype ClaimRecord = ClaimRecord(requested: nat)

  /** One interaction with the contract, in the order the controller
      makes them. Amounts are the values handed to the contract. */
  datatype LedgerCall =
    | RegisterInsured(address: JsValue, name: JsValue, document: JsValue)
    | CreatePolicy(address: JsValue, kind: JsValue, premiumWei: int, coverageWei: int, term: JsValue)
    | PayPremium(policyId: string, valueWei: int)
    | RegisterClaim(policyId: string, description: JsValue, requested: JsValue)
    | ReadBalance
    | ReadClaim(claimId: string)
    | AdjudicateClaim(claimId: string, approved: bool)

  /** Whether the call submits a transaction, as opposed to reading state. */
  predicate IsWrite(c: LedgerCall) {
    !(c.ReadBalance? || c.ReadClaim?)
  }

  /** A BigInt's `toString()`: optional minus sign, then decimal digits. */
  function IntText(i: int): (s: string)
    ensures |s| > 0
    ensures i >= 0 ==> AllDigits(s) && Value(s) == i
  {
    ValueOfText(if i >= 0 then i else -i);
    if i >= 0 then Text(i) else "-" + Text(-i)
  }

  /** `arg.toString()` for a decoded event argument. */
  function ArgText(a: EventArg): (r: string)
    ensures a.IntArg? ==> |r| > 0
    ensures a.IntArg? && a.i >= 0 ==> AllDigits(r) && Value(r) == a.i
    ensures a.BoolArg? ==> (r == "true" <==> a.f) && (r == "false" <==> !a.f)
  {
    match a
    case IntArg(i) => IntText(i)
    case BoolArg(f) => if f then "true" else "false"
    case TextArg(t) => t
  }

  /** `arg ? true : false` for a decoded event argument, which is missing
      (undefined, falsy) when the event has too few arguments. */
  predicate ArgTruthy(args: seq<EventArg>, k: nat)
    ensures ArgTruthy(args, k) ==> k < |args|
    ensures k < |args| && args[k].BoolArg? ==> (ArgTruthy(args, k) <==> args[k].f)
    ensures k < |args| && args[k].IntArg? ==> (ArgTruthy(args, k) <==> IntText(args[k].i) != "0")
  {
    k < |args| &&
    match args[k]
    case IntArg(i) => i != 0
    case BoolArg(f) => f
    case TextArg(t) => |t| > 0
  }
}
