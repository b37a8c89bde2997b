# Insurance controller: validation, scaling and gating

This project models the insurance controller of the service,
`app/controllers/seguroController.js`. The controller sits between HTTP
clients and the insurance contract on the ledger. It exports nine
handlers; the five that write to the ledger are modelled, and the four
query handlers are left out (see "Left out"):

- `cadastrarSegurado`: registers an insured party, as a JSON-RPC 2.0 call.
- `criarApolice`: creates a policy.
- `pagarPremio`: pays a premium.
- `registrarSinistro`: registers a claim.
- `processarEPagarSinistro`: adjudicates a claim and pays it.

Each modelled handler checks its request, submits one transaction and
answers with the hash and block from the receipt; all but
`cadastrarSegurado` also decode the first event of the receipt and
answer with its data. Two of them,
`criarApolice` and `pagarPremio`, first convert ether amounts to wei;
`registrarSinistro` passes its amount on unscaled, and the other two
convert nothing. Each is modelled as a pure function (module `Controller`) that
takes two things:

- the parsed request fields, as JavaScript values (`JsValues.JsValue`);
- the contract's answers: the receipt or error of the write, the balance
  read and the claim read.

It returns an `Exchange`: the contract calls made, in order, and the reply
sent (HTTP status and JSON body, module `Responses`).

Every handler's contract is `Controller.Sound`:

- the status is 200, 400 or 500;
- a handler writes at most once, and only as its last call;
- a 400 refusal writes nothing;
- a 200 follows a write the ledger confirmed;
- a write the ledger refused becomes a 500 that carries the ledger's
  message.

The JavaScript the checks rely on is modelled on exact decimals rather
than doubles (modules `Decimals`, `JsNumbers`, `JsNumberLaws`,
`JsValues`; see "Left out" for what that changes):

- truthiness;
- `isNaN` and the comparison `x <= 0`, which go through ToNumber,
  including string parsing: whitespace, `0x`/`0o`/`0b` literals,
  exponents and `Infinity`;
- the TypeError of ToPrimitive: an object with an own `toString` key
  (JSON cannot carry a function, so that key is never callable) has no
  primitive value, and neither has an array holding such an object,
  because `join` converts every element. `isNaN` of such a value throws
  inside the handler's `try`, so the answer is a 500
  (`CoercionError`), not a 400;
- `x.toString()`, which is Number::toString, with the switch to exponent
  notation at 10^21 and below 10^-6;
- `ethers.parseEther`: an optional minus sign and a point number, scaled
  exactly by 10^18; it throws when a non-zero digit lies beyond the 18th
  decimal.

Module `ControllerProperties` states what the handlers promise, one
behaviour per lemma:

- the check order of each handler;
- that refusals never reach the ledger;
- which amounts are scaled and which pass through;
- the solvency gate in front of claim adjudication.

## Model

| member | source | states |
|---|---|---|
| Controller.CadastrarSegurado | app/controllers/seguroController.js:9-61 | Registration is Sound: refusals write nothing; the single write is the last call; 200 only after a confirmed write; a ledger error becomes a 500 carrying its message |
| Controller.FirstFailure | app/controllers/seguroController.js:68-84 | The reported message belongs to the first failing check, and all earlier checks passed; no message exactly when every check passes |
| Controller.CriarApolice | app/controllers/seguroController.js:64-109 | Policy creation is Sound: no write on a refusal, at most one write, 200 only after confirmation, ledger errors passed on as 500 |
| Controller.SubmitPolicy | app/controllers/seguroController.js:86-107 | Past the checks, policy creation never answers 400; a conversion failure or ledger error is a 500, and the one write is the last call |
| Controller.PagarPremio | app/controllers/seguroController.js:112-141 | Premium payment is Sound |
| Controller.SubmitPremium | app/controllers/seguroController.js:121-140 | Past the check, premium payment never answers 400; a conversion failure or ledger error is a 500, and the one write is the last call |
| Controller.RegistrarSinistro | app/controllers/seguroController.js:143-172 | Claim registration is Sound |
| Controller.ProcessarEPagarSinistro | app/controllers/seguroController.js:174-211 | Adjudication is Sound (a refusal writes nothing; the only write comes last); for a boolean decision the balance read comes first, and once it is answered the claim read of this same claim id follows; a third call is always the adjudication of this claim id with the given decision |
| ControllerProperties.InvalidEnvelopeRejected | app/controllers/seguroController.js:13-22 | An error with code -32600 happens exactly when the envelope is wrong (version, procedure name, or params not an array); it has status 400 and message "Invalid Request"; the id is echoed, or null when falsy; no ledger call |
| ControllerProperties.IncompleteParamsRejected | app/controllers/seguroController.js:25-35 | With a valid envelope, a 400 happens exactly when one of the first three params is falsy; the body is -32602 with the fixed message and the id as given; no ledger call |
| ControllerProperties.RegistrationSubmitted | app/controllers/seguroController.js:37-60 | A complete registration submits address, name and document in order; on success the reply carries the receipt hash and the id; on failure it is a 500 with -32603 and the ledger message as data |
| ControllerProperties.ExtraParamsIgnored | app/controllers/seguroController.js:25 | Params beyond the third do not change the outcome |
| ControllerProperties.PolicyCheckOrder | app/controllers/seguroController.js:68-84 | Presence is checked first, then `isNaN` of premium, coverage and term from left to right, then positivity; the first amount that does not convert decides: a throw is a 500, a NaN the numeric message with 400; no refusal makes a call |
| ControllerProperties.PolicyRefusalsNeverSubmit | app/controllers/seguroController.js:68-95 | A 400 happens exactly when some check fails without a conversion throwing first; any ledger call implies that all three checks passed |
| ControllerProperties.PolicyChecksPass | app/controllers/seguroController.js:68-84 | All checks pass exactly when address and type are truthy and each amount converts, without throwing, to a number above zero |
| ControllerProperties.AmountRefused | app/controllers/seguroController.js:74-78 | With every field present and some amount not converting, the first check to fail is the `isNaN` of the first such amount: it threw exactly when ThrowsFirst holds, and reports the numeric message |
| ControllerProperties.AcceptedMeaning | app/controllers/seguroController.js:68-84 | An amount is accepted exactly when it is truthy, converts without throwing, is not NaN and is not at most zero |
| ControllerProperties.ZeroIsMissing | app/controllers/seguroController.js:68-72 | A numeric zero premium, coverage or term is reported as missing data, not as non-positive |
| JsValues.PositiveIsTruthy | app/controllers/seguroController.js:68-84 | A value the numeric and positive checks accept is truthy, so the presence check never refuses it |
| ControllerProperties.TextZeroIsNotPositive | app/controllers/seguroController.js:68-84 | The text "0" passes the presence and numeric checks and is refused as non-positive |
| ControllerProperties.PolicyScaling | app/controllers/seguroController.js:86-95 | An accepted policy is submitted with premium and coverage equal to amount × 10^18 and with address, type and term unchanged; when ethers refuses the premium text (checked first) or the coverage text, the reply is a 500 and nothing is submitted |
| ControllerProperties.PlainNumbersSubmitted | app/controllers/seguroController.js:86-95 | JSON numbers without exponent notation and with at most 18 decimals are always submitted, as their exact wei amounts |
| ControllerProperties.ExponentPremiumNotSubmitted | app/controllers/seguroController.js:86 | A premium of 10^21 passes every check, but its text "1e+21" is refused by ethers: a 500 with no submission |
| ControllerProperties.PremiumValidation | app/controllers/seguroController.js:113-119 | The premium is refused with "Valor do prêmio inválido." exactly when the amount converts without throwing and is missing, not a number or not above zero; an amount whose conversion throws is a 500; neither makes a call |
| ControllerProperties.PremiumScaling | app/controllers/seguroController.js:121-123 | An accepted amount is paid as exactly amount × 10^18 wei, which is positive, in the only call; or ethers refuses it with a 500 and no call |
| ControllerProperties.ClaimValidation | app/controllers/seguroController.js:144-166 | The claim amount is refused with 400 exactly when it converts without throwing and is not a number above zero; one whose conversion throws is a 500; otherwise it is submitted unscaled, together with the unchecked description, as the only call |
| ControllerProperties.DescriptionNotValidated | app/controllers/seguroController.js:146-152 | The status and the number of calls of a claim registration do not depend on its description |
| ControllerProperties.NonBooleanRejected | app/controllers/seguroController.js:179-183 | Any non-boolean "aprovado", truthy stand-ins included, is refused with 400 before any read or write; a boolean always leads to the balance read first, and an answered balance read to the read of the claim being adjudicated |
| ControllerProperties.SolvencyGate | app/controllers/seguroController.js:183-189 | Once both reads are answered, the adjudication is submitted exactly when it is a rejection or the balance covers the requested amount; an uncovered approval is a 400 with no write |
| ControllerProperties.RejectionNeverBlocked | app/controllers/seguroController.js:185-189 | A rejection is submitted whatever the balance |
| ControllerProperties.ExactBalancePasses | app/controllers/seguroController.js:185 | A balance equal to the requested amount lets an approval through |
| ControllerProperties.GateMonotone | app/controllers/seguroController.js:185 | A larger balance never blocks an adjudication that a smaller one allowed |
| ControllerProperties.ReadFailurePassedOn | app/controllers/seguroController.js:183-209 | A failed balance or claim read becomes a 500 that carries the ledger message; nothing is written |
| Responses.RegistrationReply | app/controllers/seguroController.js:40-60 | The reply is a 200 exactly when the write was confirmed, and a 500 otherwise; the request id is echoed either way; a 200 carries the receipt's hash and block; a ledger error becomes -32603 with the fixed message and the ledger's message as data |
| Responses.PolicyReply | app/controllers/seguroController.js:96-107 | A ledger error becomes the 500 carrying its message; a 200 happens exactly when the write was confirmed and the first event has an argument, and its body is the hash, the block and that argument's text as the policy id; a confirmed write without it is a 500 decoding failure |
| Responses.PremiumReply | app/controllers/seguroController.js:124-140 | A ledger error becomes the 500 carrying its message; a 200 happens exactly when the write was confirmed and the first event has two arguments, and its body is the hash, the block, the policy id as requested and the paid amount as the decimal digits of the second argument; otherwise a 500 decoding failure |
| Responses.ClaimReply | app/controllers/seguroController.js:153-171 | A ledger error becomes the 500 carrying its message; a 200 happens exactly when the write was confirmed and the first event has two arguments, and its body is the hash, the block, the texts of the claim id and policy id from the event, and the description and amount as received; otherwise a 500 decoding failure |
| Responses.AdjudicationReply | app/controllers/seguroController.js:191-210 | A ledger error becomes the 500 carrying its message; a 200 happens exactly when the write was confirmed and the first event has an argument, and its body is the hash, the block, the claim id's text and the truthiness of the second argument; otherwise a 500 decoding failure |
| Responses.PaidAmountAsWritten | app/controllers/seguroController.js:128 | The amount paid, as written: a single character, a prefix of the amount's text, and missing exactly when that text is empty |
| Responses.PaidAmountAsWrittenTruncates | app/controllers/seguroController.js:128 | For every payment of 10 wei or more, the reported amount is one digit and differs from the amount paid |
| Responses.PaidAmount | app/controllers/seguroController.js:128-135 | The corrected amount paid: the decimal digits whose value is the paid amount |
| Ledger.ArgTruthy | app/controllers/seguroController.js:198 | `aprovadoEvento ? true : false`: a missing argument is false; a boolean argument is itself; an integer argument is true exactly when its text is not "0" |
| JsValues.FalsyValues | app/controllers/seguroController.js:26 | Truthiness: the falsy values are exactly undefined, null, false, the empty string and the number zero |
| JsValues.ToText | app/controllers/seguroController.js:86-87 | `String(v)`: a number's text reads back as the same number and starts with '-' exactly when the number is negative; an array whose single element is undefined or null gives the empty text |
| JsValues.ToNumber | app/controllers/seguroController.js:74 | ToNumber: an empty array is 0, an array of one number is that number, and a plain object is NaN |
| JsValues.NaNCases | app/controllers/seguroController.js:74 | `isNaN` is false for numbers, null, booleans and blank strings, and true for undefined and plain objects |
| JsValues.ComparisonCases | app/controllers/seguroController.js:80 | `x <= 0` holds only for values that are not NaN; it holds for null, false and the empty string, and not for true |
| JsNumbers.StringToNumber | app/controllers/seguroController.js:117 | StringToNumber: a blank string is 0; a negative result comes from text that starts with '-'; only the three spellings of Infinity give an infinity, whose sign is the text's sign |
| JsNumbers.NumberToText | app/controllers/seguroController.js:86-87 | Number::toString gives non-empty text that starts with '-' exactly when the number is negative, and "0" for zero |
| JsNumbers.ParseEther | app/controllers/seguroController.js:86-87 | `ethers.parseEther` accepts only non-empty text of digits and points with an optional leading minus sign, and a negative result comes from text starting with '-' |
| Controller.IdOrNull | app/controllers/seguroController.js:20 | The echoed id is the request id or null, is truthy exactly when the request id is, and is null whenever the request id is falsy |
| Controller.PolicyChecks | app/controllers/seguroController.js:68-84 | There are five checks, and a check that threw never passes and is one of the numeric checks |
| Controller.Blocked | app/controllers/seguroController.js:185 | An approval is blocked whenever the balance is below the requested amount, and a blocked claim is an approval of a positive amount |
| Ledger.ArgText | app/controllers/seguroController.js:97 | The text of an event argument: a BigInt prints as non-empty text, its decimal digits when it is non-negative; a boolean prints as "true" or "false" according to its value |
| ControllerProperties.ThrowingAmountIsServerError | app/controllers/seguroController.js:74-148 | A value whose conversion throws is never accepted; as a premium payment or a claim amount, and as the premium of a policy whose fields are present, it is answered with a 500 and no call |
| JsValues.ThrowsInArray | app/controllers/seguroController.js:74 | An array holding a throwing value throws too, wherever the value sits, since join converts every element |
| Ledger.IntText | app/controllers/seguroController.js:97 | A BigInt's text is non-empty; for a non-negative value it is digits whose value is the number |
| JsValues.EtherOfValue | app/controllers/seguroController.js:121 | Whenever `parseEther(x.toString())` succeeds, x reads as a finite number, and the result is that number × 10^18 |
| JsValues.EtherOfNumber | app/controllers/seguroController.js:86-87 | For a JSON number, `parseEther(x.toString())` yields its wei amount when the number is written without an exponent, and fails when it has an exponent |
| JsValues.NumberTextReadsBack | app/controllers/seguroController.js:86-87 | The text of a JSON number reads back as the same number |
| JsValues.PositiveAmountMeaning | app/controllers/seguroController.js:117 | The amount check (`isNaN` or `<= 0`) accepts exactly the values that read as +Infinity or as a finite number above zero |
| JsNumberLaws.NumberTextRoundTrip | app/controllers/seguroController.js:86 | ToNumber(Number::toString(d)) is d, in all five notations of toString |
| JsNumberLaws.MagnitudeTextReadsBack | app/controllers/seguroController.js:86 | Every positive number's text reads back as that number, and it is a plain point number exactly in the range without exponent notation |
| JsNumberLaws.ParseEtherOfNumberText | app/controllers/seguroController.js:86-87 | ethers accepts a number's text exactly when the text has no exponent, and then yields the exact wei amount |
| JsNumberLaws.ParseEtherAgreesWithNumber | app/controllers/seguroController.js:117-121 | Any text ethers accepts is read by JavaScript as a finite number with the same wei amount, so the checks and the conversion agree |
| Decimals.Wei | app/controllers/seguroController.js:121 | The wei amount is the integer equal to amount × 10^18, with the amount's sign; there is none exactly when no integer satisfies that |
| Decimals.Normalize | app/controllers/seguroController.js:86 | Normalizing strips trailing zeros: the result is canonical, keeps the sign, and denotes the same number |

## Left out

- IEEE-754 doubles: every number is an exact decimal here, whether it
  comes as a JSON number or is read from a string by ToNumber. Rounding
  to 17 significant digits, overflow to Infinity, underflow to zero, -0
  and subnormals are not modelled, and neither is toString's shortest
  round-trip digit choice. Near the edges this changes the answer. The
  text "1e-400" is 0 in JavaScript, so line 80 (as premium, coverage or
  term of a policy) and lines 117 and 148 refuse it with a 400. Here it
  is a tiny positive number: as a premium or coverage it then fails in
  `parseEther` with a 500, while a policy term and a claim amount are
  submitted. Likewise "1e400" is Infinity in JavaScript but a finite
  number here.
- The 512-bit width bound of ethers' fixed-point parser: integers are
  unbounded.
- The error texts that ethers throws: a refused conversion is the abstract
  `ConversionError(text)`, and a missing event argument is
  `DecodingError` (the TypeError of `receipt.logs[0].args[...]`). The
  TypeError of ToPrimitive is `CoercionError`, without its text.
- Ledger I/O. The contract, its transport and `tx.wait()` are left out:
  each answer is a parameter. A write's outcome is `Result<Receipt>` and
  the reads are `Result<nat>` and `Result<ClaimRecord>`. ABI decoding is
  modelled by giving receipts already decoded event arguments. Encoding
  of the call arguments is left out too, for example the unscaled
  `valorPedido` and the raw `prazo`; when the contract refuses them, that
  is the write's `Fail`.
- The transaction hash is taken from the receipt; the source reads it
  from the sent transaction, which has the same hash.
- The four query handlers: `consultarSegurado` (lines 213-229, which
  formats the registration date with date-fns), `consultarApoliceBase`,
  `consultarApoliceStatus` and `saldoContrato` (lines 231-288). They
  only read from the contract and format what they read.
- Routing and a missing request body. Each handler takes the fields of a
  body that is present; an absent field is `undefined`. Were the body
  itself undefined, the destructuring in `cadastrarSegurado` (line 10)
  would throw before its `try`, and what is then sent depends on the web
  framework, which is not part of this model. In the other handlers the
  destructuring is inside the `try` (lines 66, 114-115, 145-146,
  176-177), so the answer would be the generic 500.
- `console.error` logging.
- Races between concurrent adjudications: the contract is the final
  arbiter of the balance.
- JSON serialisation: a field whose value is `undefined` is omitted from
  the response. The model keeps `Undefined` in the body.
- The contents of a JSON object: `JsValues.Obj` keeps only whether the
  object has an own `toString` key. A claim description that is an
  object is therefore echoed in the `registrarSinistro` reply (lines
  163-166) and forwarded to the contract only as that abstraction, not
  with its fields.
- Responses.PremiumReply: the paid amount in its 200 body is the
  corrected `Responses.PaidAmount`, the whole decimal text of the amount.
  The code as written reports only its first character
  (`Responses.PaidAmountAsWritten`; see Findings), so the 200 body of
  `Controller.PagarPremio` does not promise what line 128 sends.

Behaviour of the code that its evident intent would not predict. The
model follows the code in each case:

- Registration destructures the first three parameters and ignores any
  others, although the call is meant to carry exactly those three
  (ControllerProperties.ExtraParamsIgnored).
- Adjudicating a claim that is already paid or rejected is not checked
  by the controller, so the ledger's refusal arrives as an ordinary 500
  rather than as a conflict.
- A confirmed write whose receipt has no events is answered with a 500:
  the code reads `receipt.logs[0].args` and throws although the write
  went through (`DecodingError`).
- A `parseEther` failure is not reported as a conversion error of its
  own; it lands in the generic 500 `{ success: false, error }`.
- The amount checks do not require finite values. JSON cannot carry the
  number Infinity, but the text "Infinity" reads as +Infinity and passes
  every check. As premium or coverage it then fails in `parseEther` with
  a 500. As term it is passed raw to the contract (line 94), so what
  happens is the write's `Fail` when the contract's encoding refuses it.
- The missing-data message of `criarApolice` (line 70) repeats the
  registration text, which mentions name and document. The model keeps
  that text (`Responses.Incomplete` serves both).

## Findings

| source | as written | input that shows it | evidently intended | confidence | as-written member | corrected member |
|---|---|---|---|---|---|---|
| app/controllers/seguroController.js:128 | Array destructuring of the amount's text binds only its first character to `valorPago` | A payment whose event amount is 15 wei (any amount of 10 wei or more) is reported as "1" | `valorPago` is the whole decimal text of the amount paid | not executed | Responses.PaidAmountAsWrittenTruncates | Responses.PaidAmount |
