/**
 * The two verdicts the application derives from the checks: the label of
 * `label_email` used for file ingestion, and the status indicator of the
 * single-address view. The checks themselves are inputs: `syntaxOk` is the
 * `email_validator` syntax test, `hasMx` the MX-or-A check of a domain,
 * `verify` the SMTP probe of an address and `disposable` the disposable-list
 * test of a domain.
 */
module Verdict {
  import opened Wrappers
  import opened EmailVerifier

  /** The labels `label_email` returns. */
  datatype Label = Invalid | Unknown | Risky | Valid

  /** The checks `label_email` can make, in the order it makes them. */
  datatype Check = SyntaxCheck | MxCheck | SmtpCheck | DisposableCheck

  const ALL_CHECKS: seq<Check> := [SyntaxCheck, MxCheck, SmtpCheck, DisposableCheck]

  /** What `label_email` returned (`None` when it raised), and the checks it made. */
  datatype Labelling = Labelling(result: Option<Label>, checks: seq<Check>)

  /** `label_email(email)`. */
  function LabelEmail(
    email: string, syntaxOk: string -> bool, hasMx: string -> bool,
    verify: string -> VerifyOutcome, disposable: string -> bool): Labelling
  {
    if !syntaxOk(email) then Labelling(Some(Invalid), ALL_CHECKS[..1])
    else match DomainPart(email)
      case None => Labelling(None, ALL_CHECKS[..1])
      case Some(domain) =>
        if !hasMx(domain) then Labelling(Some(Invalid), ALL_CHECKS[..2])
        else match verify(email)
          case Raised => Labelling(None, ALL_CHECKS[..3])
          case Returned(v) =>
            if v != Accepted then Labelling(Some(Unknown), ALL_CHECKS[..3])
            else if disposable(domain) then Labelling(Some(Risky), ALL_CHECKS)
            else Labelling(Some(Valid), ALL_CHECKS)
  }

  /**
   * The label chain: a failed syntax test gives `Invalid` with no further
   * check; a domain without MX or A gives `Invalid`; an SMTP probe answering
   * `False` or `None` gives `Unknown`; an accepted address is `Risky` when its
   * domain is disposable and `Valid` otherwise. The checks made are always a
   * prefix of the four, in order, and the probe's exception propagates.
   */
  lemma LabelEmailMeaning(
    email: string, syntaxOk: string -> bool, hasMx: string -> bool,
    verify: string -> VerifyOutcome, disposable: string -> bool)
    ensures var r := LabelEmail(email, syntaxOk, hasMx, verify, disposable);
      var checked := syntaxOk(email) && DomainPart(email).Some? && hasMx(DomainPart(email).value);
      && 1 <= |r.checks| <= 4 && r.checks == ALL_CHECKS[..|r.checks|]
      && (!syntaxOk(email) ==> r == Labelling(Some(Invalid), [SyntaxCheck]))
      && (r.result == Some(Invalid) <==> !syntaxOk(email) || (DomainPart(email).Some? && !hasMx(DomainPart(email).value)))
      && (r.result == Some(Unknown) <==> checked && verify(email) in {Returned(Rejected), Returned(Pending)})
      && (r.result == Some(Risky) <==> checked && verify(email) == Returned(Accepted) && disposable(DomainPart(email).value))
      && (r.result == Some(Valid) <==> checked && verify(email) == Returned(Accepted) && !disposable(DomainPart(email).value))
      && (r.result == None <==> syntaxOk(email) && (DomainPart(email).None? || (checked && verify(email) == Raised)))
      && (DisposableCheck in r.checks <==> r.result in {Some(Risky), Some(Valid)})
  {
  }

  /** The status indicator of the single-address view. */
  datatype Status = ShownValid | ShownGreylisted | ShownInvalid

  /**
   * The indicator: `is_valid` is `syntax and mx and smtp and not temporary`,
   * with `smtp` being `True`, `False` or `None`; an invalid result whose
   * `smtp` is `None` shows as greylisted.
   */
  function StatusOf(syntax: bool, mx: bool, smtp: SmtpVerdict, temporary: bool): Status
  {
    var isValid := syntax && mx && smtp == Accepted && !temporary;
    if isValid then ShownValid
    else if smtp == Pending then ShownGreylisted
    else ShownInvalid
  }

  /** Valid exactly when every check passed; greylisted exactly when the probe answered `None`. */
  lemma StatusMeaning(syntax: bool, mx: bool, smtp: SmtpVerdict, temporary: bool)
    ensures StatusOf(syntax, mx, smtp, temporary) == ShownValid <==> syntax && mx && smtp == Accepted && !temporary
    ensures StatusOf(syntax, mx, smtp, temporary) == ShownGreylisted <==> smtp == Pending
    ensures StatusOf(syntax, mx, smtp, temporary) == ShownInvalid <==>
      smtp != Pending && !(syntax && mx && smtp == Accepted && !temporary)
  {
  }

  /**
   * The two verdicts agree on valid addresses and on greylisted ones (label
   * `Unknown`), but an accepted disposable address is labelled `Risky` while
   * the indicator shows it invalid.
   */
  lemma LabelAgreesWithStatus(
    email: string, syntaxOk: string -> bool, hasMx: string -> bool,
    verify: string -> VerifyOutcome, disposable: string -> bool)
    requires syntaxOk(email) && DomainPart(email).Some? && hasMx(DomainPart(email).value)
    requires verify(email).Returned?
    ensures var domain, v := DomainPart(email).value, verify(email).verdict;
      var given, status := LabelEmail(email, syntaxOk, hasMx, verify, disposable).result, StatusOf(true, true, v, disposable(domain));
      && (given == Some(Valid) <==> status == ShownValid)
      && (status == ShownGreylisted ==> given == Some(Unknown))
      && (given == Some(Risky) ==> status == ShownInvalid)
  {
  }
}
