/** The responses the controller sends: HTTP status plus JSON body, the
    fixed messages it uses, and how a ledger outcome (a receipt or an
    error) becomes the body of a reply. */
module Responses {
  import opened Wrappers
  import opened Digits
  import opened JsValues
  import opened Ledger

  // ---------------------------------------------------------------------
  // Messages and JSON-RPC codes (app/controllers/seguroController.js)

  const InvalidRequestCode: int := -32600
  const InvalidParamsCode: int := -32602
  const InternalErrorCode: int := -32603

  const InvalidRequest := "Invalid Request"
  const InternalError := "Erro interno do servidor."
  /** Used both for registration parameters and for policy creation. */
  const Incomplete := "Dados incompletos. Forneça endereço, nome e documento."
  const NotNumeric := "Valor de prêmio, cobertura e prazo devem ser numéricos."
  const NotPositive := "Os valores de prêmio, cobertura e prazo devem ser positivos."
  const InvalidPremium := "Valor do prêmio inválido."
  const InvalidRequested := "Valor do pedido inválido."
  const NotBoolean := "Parâmetro \"aprovado\" deve ser um booleano."
  const InsufficientBalance := "Saldo insuficiente no contrato para pagar o sinistro."

  // ---------------------------------------------------------------------
  // Response shapes

  /** Why a handler failed with a 500: the ledger (or the wait for
      confirmation) threw, `parseEther` refused the given text, turning a
      request value into a primitive threw a TypeError, or the receipt
      lacked the event arguments the handler reads (a TypeError too). */
  datatype Fault = LedgerError(message: string) | ConversionError(input: string) | CoercionError | DecodingError

  /** A JSON body; `id`, `description` and `requested` are echoed values. */
  datatype Body =
    | RpcError(code: int, message: string, data: Option<string>, id: JsValue)
    | RpcResult(hash: string, block: nat, id: JsValue)
    | ErrorText(error: string)
    | Failure(fault: Fault)
    | PolicyCreated(hash: string, block: nat, policyId: string)
    | PremiumPaid(hash: string, block: nat, policyId: string, paid: string)
    | ClaimRegistered(hash: string, block: nat, claimId: string, policyId: string, description: JsValue, requested: JsValue)
    | ClaimProcessed(hash: string, block: nat, claimId: string, approved: bool)

  datatype Response = Response(status: nat, body: Body)

  /** A 400 with a bare `{ error }` body. */
  function Invalid(message: string): Response {
    Response(400, ErrorText(message))
  }

  /** A 500 with `{ success: false, error }`. */
  function Failed(f: Fault): Response {
    Response(500, Failure(f))
  }

  // ---------------------------------------------------------------------
  // Ledger outcomes to replies

  /** Registration: the JSON-RPC result, or the -32603 internal error
      carrying the ledger's message; the request id is echoed either way. */
  function RegistrationReply(outcome: Result<Receipt>, id: JsValue): (r: Response)
    ensures r.status == 200 <==> outcome.Ok?
    ensures r.status == 200 || r.status == 500
    ensures (r.body.RpcResult? || r.body.RpcError?) && r.body.id == id
    ensures outcome.Ok? ==> r.body.RpcResult? && r.body.hash == outcome.value.hash && r.body.block == outcome.value.block
    ensures outcome.Fail? ==>
      && r.body.RpcError? && r.body.code == InternalErrorCode && r.body.message == InternalError
      && r.body.data == Some(outcome.message)
  {
    match outcome
    case Ok(receipt) => Response(200, RpcResult(receipt.hash, receipt.block, id))
    case Fail(message) => Response(500, RpcError(InternalErrorCode, InternalError, Some(message), id))
  }

  /** The receipt's first event has at least `n` arguments. */
  predicate HasArgs(receipt: Receipt, n: nat) {
    |receipt.logs| > 0 && |receipt.logs[0]| >= n
  }

  /** The arguments of the receipt's first event, when it emitted one. */
  function FirstEvent(receipt: Receipt): Option<seq<EventArg>> {
    if |receipt.logs| == 0 then None else Some(receipt.logs[0])
  }

  /** Policy creation: the new policy's id is the first event's first
      argument. */
  function PolicyReply(outcome: Result<Receipt>): (r: Response)
    ensures outcome.Fail? ==> r == Failed(LedgerError(outcome.message))
    ensures r.status == 200 <==> outcome.Ok? && HasArgs(outcome.value, 1)
    ensures outcome.Ok? && !HasArgs(outcome.value, 1) ==> r == Failed(DecodingError)
    ensures r.status == 200 ==>
      var receipt := outcome.value;
      r.body == PolicyCreated(receipt.hash, receipt.block, ArgText(receipt.logs[0][0]))
  {
    match outcome
    case Fail(message) => Failed(LedgerError(message))
    case Ok(receipt) =>
      match FirstEvent(receipt)
      case Some(args) =>
        if |args| >= 1 then Response(200, PolicyCreated(receipt.hash, receipt.block, ArgText(args[0])))
        else Failed(DecodingError)
      case None => Failed(DecodingError)
  }

  /** Premium payment: the amount paid is the first event's second
      argument. */
  function PremiumReply(outcome: Result<Receipt>, policyId: string): (r: Response)
    ensures outcome.Fail? ==> r == Failed(LedgerError(outcome.message))
    ensures r.status == 200 <==> outcome.Ok? && HasArgs(outcome.value, 2)
    ensures outcome.Ok? && !HasArgs(outcome.value, 2) ==> r == Failed(DecodingError)
    ensures r.status == 200 ==>
      var receipt := outcome.value;
      && r.body.PremiumPaid? && r.body.hash == receipt.hash && r.body.block == receipt.block
      && r.body.policyId == policyId
      && (receipt.logs[0][1].IntArg? && receipt.logs[0][1].i >= 0 ==>
            AllDigits(r.body.paid) && Value(r.body.paid) == receipt.logs[0][1].i)
  {
    match outcome
    case Fail(message) => Failed(LedgerError(message))
    case Ok(receipt) =>
      match FirstEvent(receipt)
      case Some(args) =>
        if |args| >= 2 then Response(200, PremiumPaid(receipt.hash, receipt.block, policyId, PaidAmount(args[1])))
        else Failed(DecodingError)
      case None => Failed(DecodingError)
  }

  /** Claim registration: the first event carries the claim id and the
      policy id; the description and amount are echoed as received. */
  function ClaimReply(outcome: Result<Receipt>, description: JsValue, requested: JsValue): (r: Response)
    ensures outcome.Fail? ==> r == Failed(LedgerError(outcome.message))
    ensures r.status == 200 <==> outcome.Ok? && HasArgs(outcome.value, 2)
    ensures outcome.Ok? && !HasArgs(outcome.value, 2) ==> r == Failed(DecodingError)
    ensures r.status == 200 ==>
      var receipt := outcome.value;
      r.body == ClaimRegistered(receipt.hash, receipt.block, ArgText(receipt.logs[0][0]), ArgText(receipt.logs[0][1]),
                                description, requested)
  {
    match outcome
    case Fail(message) => Failed(LedgerError(message))
    case Ok(receipt) =>
      match FirstEvent(receipt)
      case Some(args) =>
        if |args| >= 2 then
          Response(200, ClaimRegistered(receipt.hash, receipt.block, ArgText(args[0]), ArgText(args[1]), description, requested))
        else Failed(DecodingError)
      case None => Failed(DecodingError)
  }

  /** Claim adjudication: the first event carries the claim id and the
      decision, which is read by truthiness. */
  function AdjudicationReply(outcome: Result<Receipt>): (r: Response)
    ensures outcome.Fail? ==> r == Failed(LedgerError(outcome.message))
    ensures r.status == 200 <==> outcome.Ok? && HasArgs(outcome.value, 1)
    ensures outcome.Ok? && !HasArgs(outcome.value, 1) ==> r == Failed(DecodingError)
    ensures r.status == 200 ==>
      var receipt := outcome.value;
      r.body == ClaimProcessed(receipt.hash, receipt.block, ArgText(receipt.logs[0][0]), ArgTruthy(receipt.logs[0], 1))
  {
    match outcome
    case Fail(message) => Failed(LedgerError(message))
    case Ok(receipt) =>
      match FirstEvent(receipt)
      case Some(args) =>
        if |args| >= 1 then
          Response(200, ClaimProcessed(receipt.hash, receipt.block, ArgText(args[0]), ArgTruthy(args, 1)))
        else Failed(DecodingError)
      case None => Failed(DecodingError)
  }

  // ---------------------------------------------------------------------
  // The paid amount (app/controllers/seguroController.js:128)

  /** The paid amount as line 128 computes it: destructuring the text
      `[valorPago] = text` keeps only its first character (and leaves the
      field undefined for empty text). */
  function PaidAmountAsWritten(a: EventArg): (r: Option<string>)
    ensures r.Some? ==> |r.value| == 1 && r.value <= ArgText(a)
    ensures r.None? <==> ArgText(a) == ""
  {
    var t := ArgText(a);
    if |t| == 0 then None else Some(t[..1])
  }

  /** Any payment of ten wei or more is reported as a single digit, so
      the reported amount differs from the amount paid. */
  lemma PaidAmountAsWrittenTruncates(i: nat)
    requires i >= 10
    ensures PaidAmountAsWritten(IntArg(i)).Some?
    ensures var p := PaidAmountAsWritten(IntArg(i)).value;
      AllDigits(p) && Value(p) < 10 && Value(p) != i
  {
    var t := Text(i);
    assert t == Text(i / 10) + [DigitChar(i % 10)];
    assert IntText(i) == t;
    var p := t[..1];
    assert Value(p) == Value(p[..0]) * 10 + DigitValue(p[0]);
  }

  /** The paid amount the response is meant to carry: the whole text of
      the event argument. */
  function PaidAmount(a: EventArg): (r: string)
    ensures a.IntArg? && a.i >= 0 ==> AllDigits(r) && Value(r) == a.i
    ensures a.IntArg? ==> |r| > 0
  {
    ArgText(a)
  }
}
