/** What the handlers of Controller promise their callers: which requests
    are refused and with which message, that a refusal never reaches the
    ledger, what is scaled to wei and what passes through, and the
    solvency gate in front of claim adjudication. */
module ControllerProperties {
  import opened Wrappers
  import opened Digits
  import opened Decimals
  import opened JsNumbers
  import opened JsNumberLaws
  import opened JsValues
  import opened Ledger
  import opened Responses
  import opened Controller

  // ---------------------------------------------------------------------
  // Registration (cadastrarSegurado)

  /** A malformed envelope is answered with -32600 "Invalid Request", with
      the id echoed or null when the id is falsy, and nothing reaches the
      ledger; -32600 is used for nothing else. */
  lemma InvalidEnvelopeRejected(req: RpcRequest, ledger: Result<Receipt>)
    ensures var x := CadastrarSegurado(req, ledger);
      (x.response.body.RpcError? && x.response.body.code == InvalidRequestCode) <==> !ValidEnvelope(req)
    ensures var x := CadastrarSegurado(req, ledger);
      !ValidEnvelope(req) ==>
        && x.calls == [] && x.response.status == 400
        && x.response.body.message == InvalidRequest && x.response.body.data.None?
        && (Truthy(req.id) ==> x.response.body.id == req.id)
        && (!Truthy(req.id) ==> x.response.body.id == Null)
  {
  }

  /** With a valid envelope, the request is refused with -32602 exactly when
      one of the first three parameters is falsy; the id is echoed as given
      and nothing reaches the ledger. */
  lemma IncompleteParamsRejected(req: RpcRequest, ledger: Result<Receipt>)
    requires ValidEnvelope(req)
    ensures var x := CadastrarSegurado(req, ledger); var p := req.params.elems;
      x.response.status == 400 <==> !(Truthy(Param(p, 0)) && Truthy(Param(p, 1)) && Truthy(Param(p, 2)))
    ensures var x := CadastrarSegurado(req, ledger);
      x.response.status == 400 ==>
        x.calls == [] && x.response.body == RpcError(InvalidParamsCode, Incomplete, None, req.id)
  {
  }

  /** A complete registration submits the three parameters, in order, and
      answers with the ledger's receipt or its error, echoing the id. */
  lemma RegistrationSubmitted(req: RpcRequest, ledger: Result<Receipt>)
    requires ValidEnvelope(req)
    requires var p := req.params.elems; Truthy(Param(p, 0)) && Truthy(Param(p, 1)) && Truthy(Param(p, 2))
    ensures var x := CadastrarSegurado(req, ledger); var p := req.params.elems;
      && x.calls == [RegisterInsured(p[0], p[1], p[2])]
      && (ledger.Ok? ==> x.response.status == 200 && x.response.body.id == req.id
                         && x.response.body.hash == ledger.value.hash)
      && (ledger.Fail? ==> x.response.status == 500 && x.response.body.code == InternalErrorCode
                           && x.response.body.data == Some(ledger.message) && x.response.body.id == req.id)
  {
  }

  /** Parameters beyond the third change nothing. */
  lemma ExtraParamsIgnored(req: RpcRequest, q: seq<JsValue>, ledger: Result<Receipt>)
    requires req.params.Arr?
    requires Param(req.params.elems, 0) == Param(q, 0)
    requires Param(req.params.elems, 1) == Param(q, 1)
    requires Param(req.params.elems, 2) == Param(q, 2)
    ensures CadastrarSegurado(req.(params := Arr(q)), ledger) == CadastrarSegurado(req, ledger)
  {
  }

  // ---------------------------------------------------------------------
  // Policy creation (criarApolice)

  /** Of premium, coverage and term, in that order, the first amount that
      does not convert to a number throws rather than being NaN. */
  predicate ThrowsFirst(req: PolicyRequest) {
    || Throws(req.premium)
    || (!IsNaN(req.premium) && Throws(req.coverage))
    || (!IsNaN(req.premium) && !Throws(req.coverage) && !IsNaN(req.coverage) && Throws(req.term))
  }

  /** The failing check that comes first is the one FirstFailure finds. */
  lemma {:induction false} FirstFailureAt(checks: seq<Check>, i: nat)
    requires i < |checks| && !checks[i].passes
    requires forall j :: 0 <= j < i ==> checks[j].passes
    ensures FirstFailure(checks) == Some(checks[i])
    decreases i
  {
    if i > 0 {
      assert checks[0].passes;
      assert forall j :: 0 <= j < i - 1 ==> checks[1..][j] == checks[j + 1];
      FirstFailureAt(checks[1..], i - 1);
    }
  }

  /** The checks of a policy all pass exactly when address and type are
      truthy and each amount converts, without throwing, to a number above
      zero; presence of the amounts then follows. */
  lemma PolicyChecksPass(req: PolicyRequest)
    ensures FirstFailure(PolicyChecks(req)).None? <==>
      Truthy(req.address) && Truthy(req.kind) && Accepted(req.premium) && Accepted(req.coverage) && Accepted(req.term)
  {
    var c := PolicyChecks(req);
    assert (forall i :: 0 <= i < |c| ==> c[i].passes) <==> Present(req) && Numeric(req) && Positive(req) by {
      assert c[0].passes == Present(req);
      assert c[1].passes == (!Throws(req.premium) && !IsNaN(req.premium));
      assert c[2].passes == (!Throws(req.coverage) && !IsNaN(req.coverage));
      assert c[3].passes == (!Throws(req.term) && !IsNaN(req.term));
      assert c[4].passes == Positive(req);
    }
    AcceptedMeaning(req.premium);
    AcceptedMeaning(req.coverage);
    AcceptedMeaning(req.term);
  }

  /** An accepted amount is one that is truthy and converts, without
      throwing, to a number above zero. */
  lemma AcceptedMeaning(v: JsValue)
    ensures Accepted(v) <==> Truthy(v) && !Throws(v) && !IsNaN(v) && !AtMostZero(v)
  {
    PositiveIsTruthy(v);
  }

  /** The first failing check decides the reply: presence, then the
      amounts in order, where a throw is a 500 and a NaN the numeric
      message, then positivity; none of them makes a ledger call. */
  lemma PolicyCheckOrder(req: PolicyRequest, ledger: Result<Receipt>)
    ensures var x := CriarApolice(req, ledger);
      && (!Present(req) ==> x == Exchange([], Invalid(Incomplete)))
      && (Present(req) && ThrowsFirst(req) ==> x == Exchange([], Failed(CoercionError)))
      && (Present(req) && !Numeric(req) && !ThrowsFirst(req) ==> x == Exchange([], Invalid(NotNumeric)))
      && (Present(req) && Numeric(req) && !Positive(req) ==> x == Exchange([], Invalid(NotPositive)))
  {
    if !Present(req) {
      assert PolicyChecks(req)[0].passes == Present(req);
      RefusedAt(req, ledger, 0);
    } else if !Numeric(req) {
      AmountRefused(req);
    } else if !Positive(req) {
      PositivityRefused(req, ledger);
    }
  }

  /** With the fields present and the amounts numeric, a non-positive
      amount is the last check's refusal. */
  lemma PositivityRefused(req: PolicyRequest, ledger: Result<Receipt>)
    requires Present(req) && Numeric(req) && !Positive(req)
    ensures CriarApolice(req, ledger) == Exchange([], Invalid(NotPositive))
  {
    var c := PolicyChecks(req);
    assert c == [c[0], NumericCheck(req.premium), NumericCheck(req.coverage), NumericCheck(req.term),
                 Check(false, NotPositive, false)];
    LastFailure(c);
  }

  /** When the first four of five checks pass and the last fails, the
      last is the first failure. */
  lemma LastFailure(c: seq<Check>)
    requires |c| == 5 && c[0].passes && c[1].passes && c[2].passes && c[3].passes && !c[4].passes
    ensures FirstFailure(c) == Some(c[4])
  {
    FirstFailureAt(c, 4);
  }

  /** With the fields present, the first amount that does not convert is
      the first failing check: it throws when ThrowsFirst holds and
      otherwise reports the numeric message. */
  lemma AmountRefused(req: PolicyRequest)
    requires Present(req) && !Numeric(req)
    ensures var f := FirstFailure(PolicyChecks(req));
      f.Some? && f.value.throws == ThrowsFirst(req) && f.value.message == NotNumeric
  {
    var c := PolicyChecks(req);
    assert c == [c[0], NumericCheck(req.premium), NumericCheck(req.coverage), NumericCheck(req.term), c[4]];
    MiddleFailure(c);
  }

  /** When the first of five checks passes and one of the next three
      fails, the first of those three that fails is the first failure. */
  lemma MiddleFailure(c: seq<Check>)
    requires |c| == 5 && c[0].passes && !(c[1].passes && c[2].passes && c[3].passes)
    ensures FirstFailure(c) == Some(if !c[1].passes then c[1] else if !c[2].passes then c[2] else c[3])
  {
    if !c[1].passes {
      FirstFailureAt(c, 1);
    } else if !c[2].passes {
      FirstFailureAt(c, 2);
    } else {
      FirstFailureAt(c, 3);
    }
  }

  /** The first failing check decides the reply: a 500 when it threw, its
      message with a 400 otherwise. */
  lemma RefusedAt(req: PolicyRequest, ledger: Result<Receipt>, i: nat)
    requires i < 5 && !PolicyChecks(req)[i].passes
    requires forall j :: 0 <= j < i ==> PolicyChecks(req)[j].passes
    ensures CriarApolice(req, ledger) ==
      Exchange([], if PolicyChecks(req)[i].throws then Failed(CoercionError) else Invalid(PolicyChecks(req)[i].message))
  {
    FirstFailureAt(PolicyChecks(req), i);
  }

  /** A policy reaches the ledger only when all checks pass, and a 400 is
      given exactly when one fails without throwing. */
  lemma PolicyRefusalsNeverSubmit(req: PolicyRequest, ledger: Result<Receipt>)
    ensures var x := CriarApolice(req, ledger);
      x.response.status == 400 <==> !(Present(req) && Numeric(req) && Positive(req)) && !(Present(req) && ThrowsFirst(req))
    ensures var x := CriarApolice(req, ledger);
      |x.calls| > 0 ==> Present(req) && Numeric(req) && Positive(req)
  {
    PolicyCheckOrder(req, ledger);
    if Present(req) && Numeric(req) && Positive(req) {
      PolicyAccepted(req, ledger);
    }
  }

  /** Past the checks, the request goes on to conversion and submission. */
  lemma PolicyAccepted(req: PolicyRequest, ledger: Result<Receipt>)
    requires Present(req) && Numeric(req) && Positive(req)
    ensures CriarApolice(req, ledger) == SubmitPolicy(req, ledger)
  {
    PolicyChecksPass(req);
  }

  /** A number that is zero. */
  predicate IsZeroNumber(v: JsValue) {
    v.Num? && v.n.m == 0
  }

  /** A zero premium, coverage or term is falsy, so the presence check
      reports it, not the positivity check. */
  lemma ZeroIsMissing(req: PolicyRequest, ledger: Result<Receipt>)
    requires IsZeroNumber(req.premium) || IsZeroNumber(req.coverage) || IsZeroNumber(req.term)
    ensures CriarApolice(req, ledger).response == Invalid(Incomplete)
  {
    PolicyCheckOrder(req, ledger);
  }

  /** The text "0", unlike the number 0, is present but not positive. */
  lemma TextZeroIsNotPositive(req: PolicyRequest, ledger: Result<Receipt>)
    requires req.premium == Str("0")
    requires Truthy(req.address) && Truthy(req.kind)
    requires Accepted(req.coverage) && Accepted(req.term)
    ensures CriarApolice(req, ledger).response == Invalid(NotPositive)
  {
    ZeroTextRoundTrip();
    PositiveIsTruthy(req.coverage);
    PositiveIsTruthy(req.term);
    PolicyCheckOrder(req, ledger);
  }

  /** A policy that passes the checks is either submitted with premium and
      coverage scaled by 10^18 and address, type and term untouched, or,
      when ethers refuses the text of an amount, answered with a 500
      naming the premium's text first, and not submitted. */
  lemma PolicyScaling(req: PolicyRequest, ledger: Result<Receipt>)
    requires Present(req) && Numeric(req) && Positive(req)
    ensures var x := CriarApolice(req, ledger);
      var premium, coverage := ParseEther(ToText(req.premium)), ParseEther(ToText(req.coverage));
      && (premium.None? ==> x == Exchange([], Failed(ConversionError(ToText(req.premium)))))
      && (premium.Some? && coverage.None? ==> x == Exchange([], Failed(ConversionError(ToText(req.coverage)))))
      && (premium.Some? && coverage.Some? ==>
            && |x.calls| == 1 && x.calls[0].CreatePolicy?
            && x.calls[0].address == req.address && x.calls[0].kind == req.kind && x.calls[0].term == req.term
            && ToNumber(req.premium).Finite? && ScaledToWei(ToNumber(req.premium).d, x.calls[0].premiumWei)
            && ToNumber(req.coverage).Finite? && ScaledToWei(ToNumber(req.coverage).d, x.calls[0].coverageWei))
  {
    PolicyAccepted(req, ledger);
    var premium, coverage := ParseEther(ToText(req.premium)), ParseEther(ToText(req.coverage));
    if premium.Some? && coverage.Some? {
      EtherOfValue(req.premium);
      EtherOfValue(req.coverage);
    }
  }

  /** JSON numbers written without an exponent and with at most 18
      decimals always convert, so such a policy is submitted. */
  lemma PlainNumbersSubmitted(req: PolicyRequest, ledger: Result<Receipt>, p: Decimal, c: Decimal)
    requires Present(req) && Numeric(req) && Positive(req)
    requires req.premium == Num(p) && PlainNotation(p) && Wei(p).Some?
    requires req.coverage == Num(c) && PlainNotation(c) && Wei(c).Some?
    ensures CriarApolice(req, ledger).calls == [CreatePolicy(req.address, req.kind, Wei(p).value, Wei(c).value, req.term)]
  {
    PolicyAccepted(req, ledger);
    EtherOfNumber(p);
    EtherOfNumber(c);
  }

  /** A premium of 10^21 ether passes every check, but its text is
      "1e+21", which ethers refuses: the reply is a 500 and nothing is
      submitted. */
  lemma ExponentPremiumNotSubmitted(req: PolicyRequest, ledger: Result<Receipt>)
    requires req.premium == Num(Decimal(1, 21))
    requires Present(req) && Numeric(req) && Positive(req)
    ensures CriarApolice(req, ledger).calls == []
    ensures CriarApolice(req, ledger).response.status == 500
  {
    PolicyAccepted(req, ledger);
    var d := Decimal(1, 21);
    NormalizeCanonical(d);
    assert Text(1) == "1";
    assert !PlainNotation(d);
    EtherOfNumber(d);
  }

  // ---------------------------------------------------------------------
  // Premium payment (pagarPremio)

  /** A wei amount for a positive number is positive. */
  lemma ScaledPositive(d: Decimal, w: int)
    requires d.m > 0 && ScaledToWei(d, w)
    ensures w > 0
  {
    var x := d.e + EtherDecimals;
    if x >= 0 {
      MulAtLeast(d.m, Pow10(x));
    } else {
      assert w * Pow10(-x) == d.m;
      NonPositiveProduct(w, Pow10(-x));
    }
  }

  lemma NonPositiveProduct(w: int, p: int)
    ensures w <= 0 && p >= 1 ==> w * p <= 0
  {
  }

  /** A value whose conversion to a primitive throws is never accepted.
      Its `isNaN` throws inside the handler's `try`, so pagarPremio and
      registrarSinistro answer a 500 with no call, and so does
      criarApolice when it is the premium and every field is present. */
  lemma ThrowingAmountIsServerError(req: PolicyRequest, policyId: string, description: JsValue,
                                    v: JsValue, ledger: Result<Receipt>)
    requires Throws(v)
    ensures !Accepted(v)
    ensures PagarPremio(policyId, v, ledger) == Exchange([], Failed(CoercionError))
    ensures RegistrarSinistro(policyId, description, v, ledger) == Exchange([], Failed(CoercionError))
    ensures Present(req) && req.premium == v ==> CriarApolice(req, ledger) == Exchange([], Failed(CoercionError))
  {
    PolicyCheckOrder(req, ledger);
  }

  /** An amount that is missing, not a number or not above zero is refused
      with a 400, and only such an amount is; an amount whose conversion
      throws is a 500; neither reaches the ledger. */
  lemma PremiumValidation(policyId: string, amount: JsValue, ledger: Result<Receipt>)
    ensures var x := PagarPremio(policyId, amount, ledger);
      x.response == Invalid(InvalidPremium) <==> !Throws(amount) && !PositiveAmount(amount)
    ensures Throws(amount) ==> PagarPremio(policyId, amount, ledger) == Exchange([], Failed(CoercionError))
    ensures !Accepted(amount) ==> PagarPremio(policyId, amount, ledger).calls == []
  {
  }

  /** An accepted amount is paid as that amount times 10^18 wei, which is
      positive, or refused by ethers with a 500 and not paid. */
  lemma PremiumScaling(policyId: string, amount: JsValue, ledger: Result<Receipt>)
    requires Accepted(amount)
    ensures var x := PagarPremio(policyId, amount, ledger);
      && (ParseEther(ToText(amount)).None? ==> x == Exchange([], Failed(ConversionError(ToText(amount)))))
      && (ParseEther(ToText(amount)).Some? ==>
            && x.calls == [PayPremium(policyId, ParseEther(ToText(amount)).value)]
            && ToNumber(amount).Finite? && ScaledToWei(ToNumber(amount).d, x.calls[0].valueWei)
            && x.calls[0].valueWei > 0)
  {
    var wei := ParseEther(ToText(amount));
    if wei.Some? {
      EtherOfValue(amount);
      PremiumPositive(amount);
      ScaledPositive(ToNumber(amount).d, wei.value);
    }
  }

  lemma PremiumPositive(amount: JsValue)
    requires PositiveAmount(amount) && ToNumber(amount).Finite?
    ensures ToNumber(amount).d.m > 0
  {
  }

  // ---------------------------------------------------------------------
  // Claim registration (registrarSinistro)

  /** The requested amount is checked like a premium, but submitted as
      given (not scaled) and echoed unchanged; the description is neither
      checked nor altered. */
  lemma ClaimValidation(policyId: string, description: JsValue, requested: JsValue, ledger: Result<Receipt>)
    ensures var x := RegistrarSinistro(policyId, description, requested, ledger);
      && (x.response == Invalid(InvalidRequested) <==> !Throws(requested) && !PositiveAmount(requested))
      && (Throws(requested) ==> x == Exchange([], Failed(CoercionError)))
      && (!Accepted(requested) ==> x.calls == [])
      && (Accepted(requested) ==> x.calls == [RegisterClaim(policyId, description, requested)])
      && (x.response.status == 200 ==>
            x.response.body.description == description && x.response.body.requested == requested)
  {
  }

  /** Whether a claim is refused does not depend on its description. */
  lemma DescriptionNotValidated(policyId: string, d1: JsValue, d2: JsValue, requested: JsValue, ledger: Result<Receipt>)
    ensures RegistrarSinistro(policyId, d1, requested, ledger).response.status
         == RegistrarSinistro(policyId, d2, requested, ledger).response.status
    ensures |RegistrarSinistro(policyId, d1, requested, ledger).calls|
         == |RegistrarSinistro(policyId, d2, requested, ledger).calls|
  {
  }

  // ---------------------------------------------------------------------
  // Claim adjudication (processarEPagarSinistro)

  /** Anything but a boolean, truthy stand-ins such as "true" or 1
      included, is refused before any read or write; a boolean always
      leads to the balance read. */
  lemma NonBooleanRejected(claimId: string, approved: JsValue, balance: Result<nat>,
                           claim: Result<ClaimRecord>, ledger: Result<Receipt>)
    ensures var x := ProcessarEPagarSinistro(claimId, approved, balance, claim, ledger);
      x.calls == [] <==> !approved.Bool?
    ensures var x := ProcessarEPagarSinistro(claimId, approved, balance, claim, ledger);
      !approved.Bool? ==> x.response == Invalid(NotBoolean)
    ensures var x := ProcessarEPagarSinistro(claimId, approved, balance, claim, ledger);
      approved.Bool? ==> x.calls[0] == ReadBalance
    ensures var x := ProcessarEPagarSinistro(claimId, approved, balance, claim, ledger);
      approved.Bool? && balance.Ok? ==> |x.calls| >= 2 && x.calls[..2] == [ReadBalance, ReadClaim(claimId)]
  {
  }

  /** Whether the adjudication is submitted. */
  predicate Adjudicated(x: Exchange, claimId: string, approved: bool) {
    |x.calls| > 0 && x.calls[|x.calls| - 1] == AdjudicateClaim(claimId, approved)
  }

  /** With both reads answered, the decision is submitted exactly when it
      is a rejection or the balance covers the requested amount; an
      approval the balance does not cover is a 400 with no write. */
  lemma SolvencyGate(claimId: string, approved: bool, funds: nat, record: ClaimRecord, ledger: Result<Receipt>)
    ensures var x := ProcessarEPagarSinistro(claimId, Bool(approved), Ok(funds), Ok(record), ledger);
      Adjudicated(x, claimId, approved) <==> (!approved || record.requested <= funds)
    ensures var x := ProcessarEPagarSinistro(claimId, Bool(approved), Ok(funds), Ok(record), ledger);
      approved && funds < record.requested ==>
        x.response == Invalid(InsufficientBalance) && NoWrites(x.calls)
  {
  }

  /** A rejection is never blocked by the balance. */
  lemma RejectionNeverBlocked(claimId: string, funds: nat, record: ClaimRecord, ledger: Result<Receipt>)
    ensures Adjudicated(ProcessarEPagarSinistro(claimId, Bool(false), Ok(funds), Ok(record), ledger), claimId, false)
  {
    SolvencyGate(claimId, false, funds, record, ledger);
  }

  /** A balance equal to the requested amount lets an approval through. */
  lemma ExactBalancePasses(claimId: string, record: ClaimRecord, ledger: Result<Receipt>)
    ensures Adjudicated(ProcessarEPagarSinistro(claimId, Bool(true), Ok(record.requested), Ok(record), ledger), claimId, true)
  {
    SolvencyGate(claimId, true, record.requested, record, ledger);
  }

  /** More funds never block an adjudication that fewer funds allowed. */
  lemma GateMonotone(claimId: string, approved: bool, funds: nat, more: nat, record: ClaimRecord, ledger: Result<Receipt>)
    requires funds <= more
    requires Adjudicated(ProcessarEPagarSinistro(claimId, Bool(approved), Ok(funds), Ok(record), ledger), claimId, approved)
    ensures Adjudicated(ProcessarEPagarSinistro(claimId, Bool(approved), Ok(more), Ok(record), ledger), claimId, approved)
  {
    SolvencyGate(claimId, approved, funds, record, ledger);
    SolvencyGate(claimId, approved, more, record, ledger);
  }

  /** A failed read is passed on as a 500 carrying the ledger's message,
      and nothing is written. */
  lemma ReadFailurePassedOn(claimId: string, approved: bool, balance: Result<nat>,
                            claim: Result<ClaimRecord>, ledger: Result<Receipt>)
    requires balance.Fail? || claim.Fail?
    ensures var x := ProcessarEPagarSinistro(claimId, Bool(approved), balance, claim, ledger);
      var message := if balance.Fail? then balance.message else claim.message;
      x.response == Failed(LedgerError(message)) && NoWrites(x.calls)
  {
  }
}
