/**
 * `GmailConstraintValidator::validate`: a missing or empty value is let
 * through; otherwise the value, lower-cased unless the constraint asks for
 * capitals, must end with the Gmail domain, and a failing value adds one
 * violation that reports the value as it was tested.
 */
module Validators {
  import opened Wrappers
  import opened Ascii
  import opened Constraints
  import opened Violations

  /** The literal of the default pattern `/@GMAIL\.COM$/`. */
  const StrictSuffix: string := "@GMAIL.COM"

  /** The literal of the case-insensitive pattern `/@gmail\.com$/`. */
  const LenientSuffix: string := "@gmail.com"

  /** The string the pattern is matched against: the value itself, or its lower-case form when capitals is off. */
  function TestedValue(s: string, c: GmailConstraint): string {
    if c.capitals then s else ToLowerAscii(s)
  }

  /** The suffix the pattern demands under the constraint's options. */
  function Suffix(c: GmailConstraint): string {
    if c.capitals then StrictSuffix else LenientSuffix
  }

  /** The verdict of `validate`: true when the call reports nothing. */
  predicate Accepts(value: Option<string>, c: GmailConstraint) {
    match value
    case None => true
    case Some(s) => s == "" || EndsWith(TestedValue(s, c), Suffix(c))
  }

  /** What one call of `validate` adds to the context: nothing, or one violation with the constraint's message. */
  function ViolationsFor(value: Option<string>, c: GmailConstraint): (r: seq<Violation>)
    ensures |r| <= 1
    ensures r == [] <==> Accepts(value, c)
    ensures forall i :: 0 <= i < |r| ==> r[i].messageTemplate == c.message
  {
    if Accepts(value, c) then [] else [Violation(c.message, TestedValue(value.value, c))]
  }

  /** The validator, bound to the execution context it reports into. */
  class GmailConstraintValidator {
    const context: Context

    constructor (context: Context)
      ensures this.context == context
    {
      this.context := context;
    }

    /**
     * Check `value` against `constraint`. The only effect is on the context's
     * violation list, which grows by what `ViolationsFor` says; the constraint
     * is a value and cannot change.
     */
    method Validate(value: Option<string>, constraint: GmailConstraint)
      modifies context
      ensures context.violations == old(context.violations) + ViolationsFor(value, constraint)
    {
      if value.None? || value.value == "" {
        return;
      }
      var tested := value.value;
      var pattern := StrictSuffix;
      if !constraint.capitals {
        tested := ToLowerAscii(tested);
        pattern := LenientSuffix;
      }
      if !EndsWith(tested, pattern) {
        context.AddViolation(Violation(constraint.message, tested));
      }
    }
  }

  /** `null` and the empty string are never reported, whatever the options. */
  lemma EmptyValueAccepted(c: GmailConstraint)
    ensures ViolationsFor(None, c) == [] && ViolationsFor(Some(""), c) == []
  {
  }

  /** The case-insensitive pattern is the lower-case form of the strict one. */
  lemma LenientSuffixIsLoweredStrict()
    ensures ToLowerAscii(StrictSuffix) == LenientSuffix
    ensures NoUpper(LenientSuffix)
  {
    ToLowerAsciiPointwise(StrictSuffix, LenientSuffix);
  }

  /** Without capitals, a non-empty value passes exactly when its last ten characters spell `@gmail.com` in any case. */
  lemma LenientVerdict(s: string, c: GmailConstraint)
    requires !c.capitals
    ensures Accepts(Some(s), c) <==> s == "" || EndsWithIgnoringCase(s, LenientSuffix)
    ensures Accepts(Some(s), c) <==> s == "" || EndsWithIgnoringCase(s, StrictSuffix)
  {
    LenientSuffixIsLoweredStrict();
    LoweredEndsWith(s, LenientSuffix);
    forall i | 0 <= i < |StrictSuffix| ensures LowerChar(StrictSuffix[i]) == LowerChar(LenientSuffix[i]) {
      assert ToLowerAscii(StrictSuffix)[i] == LowerChar(StrictSuffix[i]);
      ToLowerAsciiFixesNoUpper(LenientSuffix);
    }
  }

  /** With capitals, a non-empty value passes exactly when its last ten characters are `@GMAIL.COM`, case included. */
  lemma StrictVerdict(s: string, c: GmailConstraint)
    requires c.capitals
    ensures Accepts(Some(s), c) <==>
      s == "" || (10 <= |s| && forall i :: 0 <= i < 10 ==> s[|s| - 10 + i] == StrictSuffix[i])
  {
    EndsWithAt(s, StrictSuffix);
  }

  /** Only the end of the value is inspected: what stands before its last ten characters never changes the verdict. */
  lemma OnlySuffixInspected(p: string, s: string, c: GmailConstraint)
    requires 10 <= |s|
    ensures Accepts(Some(p + s), c) <==> Accepts(Some(s), c)
  {
    if c.capitals {
      EndsWithPrefixIrrelevant(p, s, StrictSuffix);
    } else {
      ToLowerAsciiConcat(p, s);
      EndsWithPrefixIrrelevant(ToLowerAscii(p), ToLowerAscii(s), LenientSuffix);
    }
  }

  /** A passing non-empty value still passes with any text put in front of it. */
  lemma PrependKeepsAccepted(p: string, s: string, c: GmailConstraint)
    requires s != "" && Accepts(Some(s), c)
    ensures Accepts(Some(p + s), c)
  {
    assert |TestedValue(s, c)| == |s|;
    OnlySuffixInspected(p, s, c);
  }

  /** The bare domain passes: nothing before the `@` is required. */
  lemma BareDomainAccepted(c: GmailConstraint)
    ensures Accepts(Some(StrictSuffix), c)
    ensures !c.capitals ==> Accepts(Some(LenientSuffix), c)
  {
    LenientSuffixIsLoweredStrict();
    ToLowerAsciiFixesNoUpper(LenientSuffix);
  }

  /** Requiring capitals is stricter: whatever passes with capitals passes without them. */
  lemma StrictImpliesLenient(s: string, strictMessage: string, message: string)
    requires Accepts(Some(s), GmailConstraint(strictMessage, true))
    ensures Accepts(Some(s), GmailConstraint(message, false))
  {
    if s != "" {
      var p := s[..|s| - 10];
      assert s == p + StrictSuffix;
      ToLowerAsciiConcat(p, StrictSuffix);
      LenientSuffixIsLoweredStrict();
      assert ToLowerAscii(s) == ToLowerAscii(p) + LenientSuffix;
    }
  }

  /** The reverse does not hold: with capitals, an address in small letters is reported. */
  lemma StrictRejectsSmallLetters(message: string)
    ensures !Accepts(Some("lior@gmail.com"), GmailConstraint(message, true))
  {
    var s := "lior@gmail.com";
    assert s[|s| - 10] == '@';
    assert s[|s| - 9] == 'g' != StrictSuffix[1];
    EndsWithAt(s, StrictSuffix);
  }

  /** A rejected value is reported as tested: its lower-case form when capitals is off, unchanged otherwise. */
  lemma ReportedValue(s: string, c: GmailConstraint)
    requires !Accepts(Some(s), c)
    ensures ViolationsFor(Some(s), c) == [Violation(c.message, TestedValue(s, c))]
    ensures c.capitals ==> TestedValue(s, c) == s
    ensures !c.capitals ==> NoUpper(TestedValue(s, c)) && |TestedValue(s, c)| == |s|
  {
    ToLowerAsciiNoUpper(s);
  }

  /** Validating the reported value again gives the same verdict as the original. */
  lemma ReportedValueSameVerdict(s: string, c: GmailConstraint)
    ensures Accepts(Some(TestedValue(s, c)), c) <==> Accepts(Some(s), c)
  {
    if !c.capitals {
      ToLowerAsciiIdempotent(s);
    }
  }

  /*
   * The examples below take the address as a parameter fixed by `requires`
   * rather than as a literal, so that the verifier does not evaluate
   * `ToLowerAscii` on a literal by unbounded unfolding.
   */

  /** The tutorial's address in small letters passes under the default (case-insensitive) options. */
  lemma LenientAcceptsSmallLetters(s: string, message: string)
    requires s == "lior@gmail.com"
    ensures Accepts(Some(s), GmailConstraint(message, false))
  {
    ToLowerAsciiPointwise(s, s);
    assert s[|s| - 10..] == LenientSuffix;
  }

  /** The tutorial's address in capitals passes under the default options too. */
  lemma LenientAcceptsCapitals(s: string, message: string)
    requires s == "lior@GMAIL.COM"
    ensures Accepts(Some(s), GmailConstraint(message, false))
  {
    var small := "lior@gmail.com";
    ToLowerAsciiPointwise(s, small);
    assert small[|small| - 10..] == LenientSuffix;
  }

  /** The tutorial's address that fails under the default options: another domain. */
  lemma LenientRejectsOtherDomain(s: string, message: string)
    requires s == "lior@hotmail.com"
    ensures !Accepts(Some(s), GmailConstraint(message, false))
  {
    ToLowerAsciiPointwise(s, s);
    assert s[|s| - 10..] != LenientSuffix by {
      assert s[|s| - 10] == 'o' != LenientSuffix[0];
    }
  }

  /** The tutorial's addresses with capitals required: capitals pass, small letters fail. */
  lemma StrictExamples(message: string)
    ensures Accepts(Some("lior@GMAIL.COM"), GmailConstraint(message, true))
    ensures !Accepts(Some("lior@gmail.com"), GmailConstraint(message, true))
  {
    var c := GmailConstraint(message, true);
    BareDomainAccepted(c);
    PrependKeepsAccepted("lior", StrictSuffix, c);
    assert "lior" + StrictSuffix == "lior@GMAIL.COM";
    StrictRejectsSmallLetters(message);
  }

  /** A default constraint that rejects a mixed-case address reports its lower-case form in the default message. */
  lemma DefaultReportExample(s: string)
    requires s == "Lior@Hotmail.com"
    ensures ViolationsFor(Some(s), GmailConstraint(DefaultMessage, false))
      == [Violation(DefaultMessage, "lior@hotmail.com")]
    ensures Message(ViolationsFor(Some(s), GmailConstraint(DefaultMessage, false))[0])
      == "The string \"" + ToLowerAscii(s) + "\" is not a Gmail address !"
  {
    var c := GmailConstraint(DefaultMessage, false);
    var lowered := "lior@hotmail.com";
    ToLowerAsciiPointwise(s, lowered);
    LenientRejectsOtherDomain(lowered, DefaultMessage);
    ReportedValueSameVerdict(s, c);
    DefaultMessageShowsValue(lowered);
  }
}
