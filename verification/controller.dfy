/** The insurance controller's handlers as pure decision functions
    (app/controllers/seguroController.js). A handler receives the parsed
    request and the answers the contract would give, and yields the
    calls it makes to the contract, in order, with the reply it sends. */
module Controller {
  import opened Wrappers
  import opened JsNumbers
  import opened JsValues
  import opened Ledger
  import opened Responses

  /** The calls a handler made and the reply it sent. */
  datatype Exchange = Exchange(calls: seq<LedgerCall>, response: Response)

  // ---------------------------------------------------------------------
  // Ordered checks

  /** A validation step: whether it passes; when it does not, whether
      evaluating it threw or it reports its message. */
  datatype Check = Check(passes: bool, message: string, throws: bool)

  /** The first failing check, if any fails. */
  function FirstFailure(checks: seq<Check>): (r: Option<Check>)
    ensures r.None? <==> forall i :: 0 <= i < |checks| ==> checks[i].passes
    ensures r.Some? ==> exists i :: 0 <= i < |checks| && !checks[i].passes && checks[i] == r.value
                                    && forall j :: 0 <= j < i ==> checks[j].passes
  {
    if |checks| == 0 then None
    else if !checks[0].passes then Some(checks[0])
    else
      var rest := FirstFailure(checks[1..]);
      assert forall i :: 1 <= i < |checks| ==> checks[i] == checks[1..][i - 1];
      rest
  }

  // ---------------------------------------------------------------------
  // What every handler guarantees

  predicate NoWrites(calls: seq<LedgerCall>) {
    forall i :: 0 <= i < |calls| ==> !IsWrite(calls[i])
  }

  /** The reply passes on `message` from the ledger. */
  predicate Carries(r: Response, message: string) {
    || (r.body.RpcError? && r.body.data == Some(message))
    || r.body == Failure(LedgerError(message))
  }

  /** A handler writes at most once, as its last call; a refusal (400)
      writes nothing; a success (200) follows a write the ledger
      confirmed; a write the ledger refused yields a 500 that carries the
      ledger's message. */
  predicate Sound(x: Exchange, ledger: Result<Receipt>) {
    var n := |x.calls|;
    && x.response.status in {200, 400, 500}
    && (forall i :: 0 <= i < n - 1 ==> !IsWrite(x.calls[i]))
    && (x.response.status == 400 ==> NoWrites(x.calls))
    && (x.response.status == 200 ==> ledger.Ok? && n > 0 && IsWrite(x.calls[n - 1]))
    && (n > 0 && IsWrite(x.calls[n - 1]) && ledger.Fail? ==>
          x.response.status == 500 && Carries(x.response, ledger.message))
  }

  // ---------------------------------------------------------------------
  // cadastrarSegurado (lines 9-61): a JSON-RPC 2.0 call

  datatype RpcRequest = RpcRequest(jsonrpc: JsValue, procedure: JsValue, params: JsValue, id: JsValue)

  predicate ValidEnvelope(req: RpcRequest) {
    req.jsonrpc == Str("2.0") && req.procedure == Str("cadastrarSegurado") && req.params.Arr?
  }

  /** Element `k` of an array destructuring: `undefined` past the end. */
  function Param(params: seq<JsValue>, k: nat): JsValue {
    if k < |params| then params[k] else Undefined
  }

  /** `id || null`: a truthy id is kept; 0, "", false and undefined
      become null. */
  function IdOrNull(id: JsValue): (r: JsValue)
    ensures r == id || r == Null
    ensures Truthy(r) <==> Truthy(id)
    ensures !Truthy(id) ==> r == Null
  {
    if Truthy(id) then id else Null
  }

  function CadastrarSegurado(req: RpcRequest, ledger: Result<Receipt>): (x: Exchange)
    ensures Sound(x, ledger)
  {
    if !ValidEnvelope(req) then
      Exchange([], Response(400, RpcError(InvalidRequestCode, InvalidRequest, None, IdOrNull(req.id))))
    else
      var p := req.params.elems;
      var address, name, document := Param(p, 0), Param(p, 1), Param(p, 2);
      if !Truthy(address) || !Truthy(name) || !Truthy(document) then
        Exchange([], Response(400, RpcError(InvalidParamsCode, Incomplete, None, req.id)))
      else
        Exchange([RegisterInsured(address, name, document)], RegistrationReply(ledger, req.id))
  }

  // ---------------------------------------------------------------------
  // criarApolice (lines 64-109)

  datatype PolicyRequest = PolicyRequest(address: JsValue, kind: JsValue, premium: JsValue, coverage: JsValue, term: JsValue)

  /** An amount `isNaN` and `<= 0` both let through without throwing. */
  predicate Accepted(v: JsValue) {
    !Throws(v) && PositiveAmount(v)
  }

  /** Every field is truthy (line 68). */
  predicate Present(req: PolicyRequest) {
    Truthy(req.address) && Truthy(req.kind) && Truthy(req.coverage) && Truthy(req.premium) && Truthy(req.term)
  }

  /** Every amount converts to a number: no throw, no NaN (line 74). */
  predicate Numeric(req: PolicyRequest) {
    && !Throws(req.premium) && !IsNaN(req.premium)
    && !Throws(req.coverage) && !IsNaN(req.coverage)
    && !Throws(req.term) && !IsNaN(req.term)
  }

  /** No amount is at most zero (line 80). */
  predicate Positive(req: PolicyRequest) {
    !AtMostZero(req.premium) && !AtMostZero(req.coverage) && !AtMostZero(req.term)
  }

  /** Presence (line 68); then `isNaN` of premium, coverage and term, in
      that order, where the first value that throws or is NaN stops the
      evaluation (line 74); then positivity (line 80), which can no longer
      throw. */
  function PolicyChecks(req: PolicyRequest): (r: seq<Check>)
    ensures |r| == 5
    ensures forall i :: 0 <= i < |r| && r[i].throws ==> !r[i].passes && r[i].message == NotNumeric
  {
    [ Check(Present(req), Incomplete, false),
      NumericCheck(req.premium),
      NumericCheck(req.coverage),
      NumericCheck(req.term),
      Check(Positive(req), NotPositive, false) ]
  }

  /** `isNaN(v)` as one step of line 74. */
  function NumericCheck(v: JsValue): Check {
    Check(!Throws(v) && !IsNaN(v), NotNumeric, Throws(v))
  }

  function CriarApolice(req: PolicyRequest, ledger: Result<Receipt>): (x: Exchange)
    ensures Sound(x, ledger)
  {
    match FirstFailure(PolicyChecks(req))
    case Some(check) => Exchange([], if check.throws then Failed(CoercionError) else Invalid(check.message))
    case None => SubmitPolicy(req, ledger)
  }

  /** Lines 86-95: premium, then coverage, to wei; then the submission. */
  function SubmitPolicy(req: PolicyRequest, ledger: Result<Receipt>): (x: Exchange)
    ensures Sound(x, ledger) && x.response.status != 400
  {
    var premiumText, coverageText := ToText(req.premium), ToText(req.coverage);
    match (ParseEther(premiumText), ParseEther(coverageText))
    case (None, _) => Exchange([], Failed(ConversionError(premiumText)))
    case (_, None) => Exchange([], Failed(ConversionError(coverageText)))
    case (Some(premiumWei), Some(coverageWei)) =>
      Exchange([CreatePolicy(req.address, req.kind, premiumWei, coverageWei, req.term)], PolicyReply(ledger))
  }

  // ---------------------------------------------------------------------
  // pagarPremio (lines 112-141)

  function PagarPremio(policyId: string, amount: JsValue, ledger: Result<Receipt>): (x: Exchange)
    ensures Sound(x, ledger)
  {
    if Throws(amount) then Exchange([], Failed(CoercionError))
    else if IsNaN(amount) || AtMostZero(amount) then Exchange([], Invalid(InvalidPremium))
    else SubmitPremium(policyId, amount, ledger)
  }

  /** A checked amount is scaled to wei and paid. */
  function SubmitPremium(policyId: string, amount: JsValue, ledger: Result<Receipt>): (x: Exchange)
    ensures Sound(x, ledger) && x.response.status != 400
  {
    var text := ToText(amount);
    match ParseEther(text)
    case None => Exchange([], Failed(ConversionError(text)))
    case Some(wei) => Exchange([PayPremium(policyId, wei)], PremiumReply(ledger, policyId))
  }

  // ---------------------------------------------------------------------
  // registrarSinistro (lines 143-172)

  function RegistrarSinistro(policyId: string, description: JsValue, requested: JsValue, ledger: Result<Receipt>): (x: Exchange)
    ensures Sound(x, ledger)
  {
    if Throws(requested) then Exchange([], Failed(CoercionError))
    else if IsNaN(requested) || AtMostZero(requested) then Exchange([], Invalid(InvalidRequested))
    else
      Exchange([RegisterClaim(policyId, description, requested)], ClaimReply(ledger, description, requested))
  }

  // ---------------------------------------------------------------------
  // processarEPagarSinistro (lines 174-211)

  /** `approved && balance < requested` (line 185). */
  predicate Blocked(approved: bool, balance: nat, claim: ClaimRecord)
    ensures Blocked(approved, balance, claim) ==> approved && claim.requested > 0
    ensures approved && balance < claim.requested ==> Blocked(approved, balance, claim)
  {
    approved && balance < claim.requested
  }

  /** The balance and claim reads are answered by `balance` and `claim`,
      the adjudication itself by `ledger`. */
  function ProcessarEPagarSinistro(claimId: string, approved: JsValue, balance: Result<nat>,
                                   claim: Result<ClaimRecord>, ledger: Result<Receipt>): (x: Exchange)
    ensures Sound(x, ledger)
    ensures approved.Bool? ==> |x.calls| > 0 && x.calls[0] == ReadBalance
    ensures approved.Bool? && balance.Ok? ==> |x.calls| >= 2 && x.calls[..2] == [ReadBalance, ReadClaim(claimId)]
    ensures |x.calls| > 2 ==> approved.Bool? && x.calls[2] == AdjudicateClaim(claimId, approved.b)
  {
    if !approved.Bool? then Exchange([], Invalid(NotBoolean))
    else
      match balance
      case Fail(message) => Exchange([ReadBalance], Failed(LedgerError(message)))
      case Ok(funds) =>
        var lookups := [ReadBalance, ReadClaim(claimId)];
        match claim
        case Fail(message) => Exchange(lookups, Failed(LedgerError(message)))
        case Ok(record) =>
          if Blocked(approved.b, funds, record) then Exchange(lookups, Invalid(InsufficientBalance))
          else Exchange(lookups + [AdjudicateClaim(claimId, approved.b)], AdjudicationReply(ledger))
  }
}
