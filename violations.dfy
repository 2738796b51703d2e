/**
 * The violations the validator reports, and the execution context that
 * collects them. The context is the framework's; only the part the validator
 * touches is modelled: a list that `addViolation` appends to.
 */
module Violations {
  import opened Constraints

  /** A reported failure: the constraint's message template and the value given for `{{ value }}`. */
  datatype Violation = Violation(messageTemplate: string, value: string)

  /**
   * Parameter substitution with one pair, as `strtr` performs it: the template
   * is scanned left to right, each occurrence of `key` is replaced by `val`,
   * and inserted text is never scanned again. An empty key replaces nothing.
   */
  function Interpolate(template: string, key: string, val: string): string
    decreases |template|
  {
    if template == [] || key == [] then template
    else if key <= template then val + Interpolate(template[|key|..], key, val)
    else [template[0]] + Interpolate(template[1..], key, val)
  }

  /** The message a violation displays: its template with `{{ value }}` filled in. */
  function Message(v: Violation): string {
    Interpolate(v.messageTemplate, ValuePlaceholder, v.value)
  }

  /** Text in which the key's first character never appears is copied through unchanged. */
  lemma {:induction false} InterpolateCopiesPrefix(p: string, s: string, key: string, val: string)
    requires key != []
    requires forall i :: 0 <= i < |p| ==> p[i] != key[0]
    ensures Interpolate(p + s, key, val) == p + Interpolate(s, key, val)
  {
    if p == [] {
      assert p + s == s;
    } else {
      var t := p + s;
      assert t[0] == p[0] != key[0];
      assert !(key <= t);
      assert t[1..] == p[1..] + s;
      InterpolateCopiesPrefix(p[1..], s, key, val);
      assert Interpolate(t, key, val) == [p[0]] + (p[1..] + Interpolate(s, key, val));
      assert p == [p[0]] + p[1..];
    }
  }

  /** A template without the key's first character is displayed as it is. */
  lemma InterpolateWithoutKey(s: string, key: string, val: string)
    requires key != []
    requires forall i :: 0 <= i < |s| ==> s[i] != key[0]
    ensures Interpolate(s, key, val) == s
  {
    InterpolateCopiesPrefix(s, [], key, val);
    assert s + [] == s;
  }

  /**
   * A template with one placeholder between two texts that never start a
   * key shows the value in its place.
   */
  lemma InterpolateOnePlaceholder(before: string, after: string, key: string, val: string)
    requires key != []
    requires forall i :: 0 <= i < |before| ==> before[i] != key[0]
    requires forall i :: 0 <= i < |after| ==> after[i] != key[0]
    ensures Interpolate(before + key + after, key, val) == before + val + after
  {
    var rest := key + after;
    assert before + key + after == before + rest;
    InterpolateCopiesPrefix(before, rest, key, val);
    assert key <= rest && rest[|key|..] == after;
    InterpolateWithoutKey(after, key, val);
  }

  /** The default message shows the reported value in place of the placeholder, whatever the value is. */
  lemma DefaultMessageShowsValue(x: string)
    ensures Message(Violation(DefaultMessage, x)) == "The string \"" + x + "\" is not a Gmail address !"
  {
    var before, after := "The string \"", "\" is not a Gmail address !";
    DefaultMessageHasPlaceholder();
    InterpolateOnePlaceholder(before, after, ValuePlaceholder, x);
  }

  /** The execution context: the violations reported so far, in the order they were added. */
  class Context {
    var violations: seq<Violation>

    /** A fresh context has recorded nothing. */
    constructor ()
      ensures violations == []
    {
      violations := [];
    }

    /** `buildViolation(...)->setParameter(...)->addViolation()`: append one violation, keep the rest. */
    method AddViolation(v: Violation)
      modifies this
      ensures violations == old(violations) + [v]
    {
      violations := violations + [v];
    }
  }
}
