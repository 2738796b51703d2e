# Gmail address constraint, modelled in Dafny

This project models the one validation rule that the symfony/validator
walkthrough writes itself: the "Gmail address" constraint, a pair of classes.

- `GmailConstraint` is an option record. It has a `message` template, which
  defaults to `The string "{{ value }}" is not a Gmail address !`, and a
  `capitals` flag, which defaults to `false`. It requires no option.
- `GmailConstraintValidator::validate` checks one value against it. A `null`
  or empty value is let through. Otherwise the value must end with
  `@GMAIL.COM`. When `capitals` is off, the value is lower-cased first and
  must end with `@gmail.com`. A failing value adds exactly one violation to
  the execution context. That violation carries the constraint's message
  template and reports, as `{{ value }}`, the value as it was tested.

The repository declares `GmailConstraint` twice, in the global namespace and
as `App\Constraint\GmailConstraint`. The two have the same options and the
same defaults, so one datatype models both.

Files:

- `wrappers.dfy` (`Wrappers`): `Option`, which stands for PHP's nullable
  value, and `Result`, which stands for a thrown exception.
- `ascii.dfy` (`Ascii`): `strtolower`, taken as ASCII lower-casing, and the
  anchored suffix test that the two literal patterns perform.
- `gmail_constraint.dfy` (`Constraints`): the option record, its defaults,
  and its construction from an options array.
- `violations.dfy` (`Violations`): the violation value, the display of its
  message with `{{ value }}` substituted, and the execution context as a
  class whose `violations` list is appended to.
- `gmail_constraint_validator.dfy` (`Validators`): the verdict as pure
  functions (`Accepts`, `ViolationsFor`), the validator as a class whose
  `Validate` method follows the PHP step by step, and the lemmas.

`Validate` is proved to append exactly `ViolationsFor(value, constraint)` to
the context. The properties of the rule are proved about `Accepts` and
`ViolationsFor`:

- the two verdicts restated character by character;
- only the end of the value matters;
- strict mode is stricter than lenient mode;
- what the violation reports;
- the tutorial's own example addresses.

## Model

| member | source | states |
|---|---|---|
| `Ascii.ToLowerAscii` | GmailConstraintValidator.php:37 | `strtolower` keeps the length and lower-cases each character in place; ASCII capitals become small letters and every other character is unchanged |
| `Ascii.ToLowerAsciiIdempotent` | GmailConstraintValidator.php:37 | lower-casing an already lower-cased value changes nothing |
| `Ascii.ToLowerAsciiConcat` | GmailConstraintValidator.php:37 | lower-casing a concatenation lower-cases each part separately |
| `Ascii.LoweredEndsWith` | GmailConstraintValidator.php:37-44 | testing a lower-case suffix on the lower-cased value is the same as a case-blind comparison of the value's last characters with the suffix |
| `Ascii.EndsWithPrefixIrrelevant` | GmailConstraintValidator.php:44 | the `$`-anchored pattern looks only at the last characters; text in front of them never changes the match |
| `Constraints.RequiredOptions` | GmailConstraint.php:40-43 | `getRequiredOptions` names no option |
| `Constraints.Construct` | src/Constraint/GmailConstraint.php:18-38 | building from an options array succeeds exactly when every key is a known option, and an unknown key is reported; a given `message` or `capitals` overrides its default; `capitals` is read with PHP truthiness |
| `Constraints.ConstructWithoutOptions` | GmailConstraint.php:23-31 | a constraint built with no options has the default message and `capitals` false; the namespaced copy declares the same defaults at src/Constraint/GmailConstraint.php:18,26 |
| `Constraints.NeverMissingOptions` | GmailConstraint.php:40-43 | since no option is required, construction never fails for a missing option |
| `Constraints.DefaultMessageHasPlaceholder` | GmailConstraint.php:19-23 | the default template is fixed text around the `{{ value }}` placeholder |
| `Violations.DefaultMessageShowsValue` | GmailConstraintValidator.php:46-48 | a violation with the default template displays `The string "<value>" is not a Gmail address !` for every reported value |
| `Violations.Context.AddViolation` | GmailConstraintValidator.php:46-48 | adding a violation appends it to the context's list and keeps the earlier ones in order |
| `Violations.Context.constructor` | GmailConstraintValidator.php:46 | a fresh context holds no violation |
| `Validators.ViolationsFor` | GmailConstraintValidator.php:44-49 | one call adds at most one violation; it adds none exactly when the value is accepted; the violation carries the constraint's message template |
| `Validators.GmailConstraintValidator.Validate` | GmailConstraintValidator.php:22-50 | following the PHP step by step, the context's list grows by exactly `ViolationsFor(value, constraint)`; nothing else in the context changes |
| `Validators.GmailConstraintValidator.constructor` | GmailConstraintValidator.php:46 | the validator reports into the context it is given |
| `Validators.EmptyValueAccepted` | GmailConstraintValidator.php:27-29 | `null` and the empty string add no violation, with or without `capitals` |
| `Validators.LenientSuffixIsLoweredStrict` | GmailConstraintValidator.php:32-39 | the case-insensitive pattern's literal is the lower-case form of the strict one, and it has no capital |
| `Validators.LenientVerdict` | GmailConstraintValidator.php:35-44 | with `capitals` off, a non-empty value passes exactly when its last ten characters spell `@gmail.com` in any mix of case |
| `Validators.StrictVerdict` | GmailConstraintValidator.php:32-44 | with `capitals` on, a non-empty value passes exactly when its last ten characters are `@GMAIL.COM`, case included |
| `Validators.OnlySuffixInspected` | GmailConstraintValidator.php:32-44 | in both modes, putting any text in front of a value of ten or more characters never changes the verdict |
| `Validators.PrependKeepsAccepted` | GmailConstraintValidator.php:44 | a passing non-empty value still passes with any text prepended |
| `Validators.BareDomainAccepted` | GmailConstraintValidator.php:32-39 | the bare `@GMAIL.COM` passes in both modes, and `@gmail.com` passes with `capitals` off: nothing before the `@` is required |
| `Validators.StrictImpliesLenient` | GmailConstraintValidator.php:32-39 | every value that passes with `capitals` on also passes with it off |
| `Validators.StrictRejectsSmallLetters` | GmailConstraintValidator.php:32-44 | with `capitals` on, `lior@gmail.com` is reported, so the converse of the previous row fails |
| `Validators.ReportedValue` | GmailConstraintValidator.php:37-47 | a rejected value yields the one violation with the constraint's message and the tested value; with `capitals` on that is the input, with it off it is the input's lower-case form, of the same length and with no capital |
| `Validators.ReportedValueSameVerdict` | GmailConstraintValidator.php:37-44 | validating the reported value again gives the same verdict as validating the original |
| `Validators.LenientAcceptsSmallLetters` | GmailConstraintValidator.php:35-44 | with `capitals` off, `lior@gmail.com` passes |
| `Validators.LenientAcceptsCapitals` | GmailConstraintValidator.php:35-44 | with `capitals` off, `lior@GMAIL.COM` passes |
| `Validators.LenientRejectsOtherDomain` | GmailConstraintValidator.php:35-44 | with `capitals` off, `lior@hotmail.com` is reported |
| `Validators.StrictExamples` | GmailConstraintValidator.php:32-44 | with `capitals` on, `lior@GMAIL.COM` passes and `lior@gmail.com` is reported |
| `Validators.DefaultReportExample` | GmailConstraintValidator.php:37-48 | under the default options, `Lior@Hotmail.com` gives one violation whose displayed message reports the lower-cased `lior@hotmail.com` |

## Left out

- PCRE's `$` also matches before one final newline, so PHP accepts
  `lior@gmail.com` followed by `\n`. The model treats the pattern as a strict
  suffix test and rejects that value.
- `strtolower` is modelled as ASCII-only lower-casing, which is its behaviour
  from PHP 8.2 on. Before 8.2 it depended on the locale.
- PHP strings are bytes and the model's strings are characters. The two
  agree here. ASCII lower-casing never touches a byte of a multi-byte UTF-8
  sequence, and an ASCII suffix matches the same way on bytes and on
  characters.
- Values that are not strings (integers, objects) are not modelled, because
  PHP's type juggling in `strtolower` and `preg_match` lies outside this code.
  The value is `Option<string>`: `None` stands for `null`.
- The product of `buildViolation(...)->setParameter(...)->addViolation()` is
  modelled as one step that records the template and the `{{ value }}`
  parameter. Translation, the property path, the invalid value, the code and
  the cause are not modelled. The displayed message (`Violations.Message`)
  models the library's `strtr` substitution for this one parameter only.
- Constraints.Construct: the inherited option handling of the library's base
  `Constraint` is reduced to the keys this record knows about. `groups` and
  `payload` are accepted and not stored, because the validator never reads
  them. A `value` key (the default-option shorthand) counts as an unknown
  option. Option values are only strings or booleans.
- The other built-in library constraints (`Email`, `NotBlank`, `Length`,
  comparisons, `Collection`, `All`) are not modelled. Neither are the
  stop-at-first-failure order for a list of constraints, the rendering and
  editing of `ConstraintViolationList`, metadata loading (static method,
  annotations, YAML, groups) and bootstrapping. This code only calls them or
  declares rule lists for them.
