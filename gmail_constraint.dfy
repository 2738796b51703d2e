/**
 * The `GmailConstraint` option record. The repository declares it twice, once
 * in the global namespace and once as `App\Constraint\GmailConstraint`; both
 * declare the same two options with the same defaults and no required option,
 * so one datatype stands for both.
 */
module Constraints {
  import opened Wrappers

  /** The parameter name the validator fills in when it reports a value. */
  const ValuePlaceholder: string := "{{ value }}"

  /** The message template a constraint carries when none is given. */
  const DefaultMessage: string := "The string \"{{ value }}\" is not a Gmail address !"

  /**
   * The constraint's options: the violation message template, and whether the
   * address must be written in capitals (`@GMAIL.COM`) rather than in any case.
   * The record holds no validation logic.
   */
  datatype GmailConstraint = GmailConstraint(message: string, capitals: bool)

  /** A value given for an option in the options array: a string or a boolean. */
  datatype OptionValue = Text(text: string) | Flag(flag: bool)

  /** Why building a constraint from an options array fails. */
  datatype ConfigError =
    | InvalidOptions(names: set<string>)   // keys that name no option of the constraint
    | MissingOptions(names: set<string>)   // required options that were not given

  /** The option names a constraint accepts: its own two and the base constraint's `groups` and `payload`. */
  const KnownOptions: set<string> := {"message", "capitals", "groups", "payload"}

  /** `getRequiredOptions`: its body is commented out, so no option is required. */
  function RequiredOptions(): (r: set<string>)
    ensures r !! KnownOptions && |r| == 0
  {
    {}
  }

  /** PHP truthiness, as `!$constraint->capitals` reads the option: the strings "" and "0" are false. */
  predicate IsTruthy(v: OptionValue) {
    match v
    case Flag(b) => b
    case Text(s) => s != "" && s != "0"
  }

  /** PHP's conversion of an option value to the string used as message template. */
  function AsString(v: OptionValue): string {
    match v
    case Text(s) => s
    case Flag(b) => if b then "1" else ""
  }

  /**
   * `new GmailConstraint($options)`: every given option overrides its default,
   * an unknown key is refused, and a missing required option would be refused.
   */
  function Construct(options: map<string, OptionValue>): (r: Result<GmailConstraint, ConfigError>)
    ensures r.Success? <==> options.Keys <= KnownOptions
    ensures r.Failure? ==> r.error == InvalidOptions(options.Keys - KnownOptions)
    ensures r.Success? && "message" !in options ==> r.value.message == DefaultMessage
    ensures r.Success? && "message" in options ==> r.value.message == AsString(options["message"])
    ensures r.Success? ==> (r.value.capitals <==> "capitals" in options && IsTruthy(options["capitals"]))
  {
    var invalid := options.Keys - KnownOptions;
    var missing := RequiredOptions() - options.Keys;
    if invalid != {} then
      Failure(InvalidOptions(invalid))
    else if missing != {} then
      Failure(MissingOptions(missing))
    else
      var message := if "message" in options then AsString(options["message"]) else DefaultMessage;
      var capitals := "capitals" in options && IsTruthy(options["capitals"]);
      Success(GmailConstraint(message, capitals))
  }

  /** A constraint built with no options is the default one: the default message, case-insensitive. */
  lemma ConstructWithoutOptions()
    ensures Construct(map[]) == Success(GmailConstraint(DefaultMessage, false))
  {
  }

  /** Since nothing is required, construction never fails for a missing option. */
  lemma NeverMissingOptions(options: map<string, OptionValue>)
    ensures !(Construct(options).Failure? && Construct(options).error.MissingOptions?)
  {
  }

  /** The default template holds exactly one `{{ value }}` placeholder, between fixed text. */
  lemma DefaultMessageHasPlaceholder()
    ensures DefaultMessage == "The string \"" + ValuePlaceholder + "\" is not a Gmail address !"
  {
  }
}
