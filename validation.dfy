/** The output validation of `Processor`: `verify_fix_generation` checks one generated text
    against the optional regular expression and the optional structured format, and
    `keep_valid_output` filters a batch of texts through it. */
module Validation {
  import opened Text
  import opened Utils

  /** The collaborators of the validator. `regexp` is `rx_regexp.match(text) is not None`
      (absent when no `--regexp` was given); the parsers answer whether `json.loads`,
      `yaml.safe_load` and `toml.loads` accept a text without raising. */
  datatype Validator = Validator(
    regexp: Option<string -> bool>,
    validate: Option<string>,
    jsonParses: string -> bool,
    yamlParses: string -> bool,
    tomlParses: string -> bool)

  /** What `verify_fix_generation` produces: the (possibly normalized) text and whether it is
      valid, or the process exits on an unknown validation mode. */
  datatype Verdict = Checked(text: string, valid: bool) | Exit

  /** The structured modes the validator knows. */
  predicate KnownMode(mode: string)
  {
    mode == "json" || mode == "yaml" || mode == "toml"
  }

  /** A structured check: the normalized text when the parser accepts it, else the original. */
  function Parsed(original: string, normalized: string, parses: string -> bool): Verdict
  {
    if parses(normalized) then Checked(normalized, true) else Checked(original, false)
  }

  /** `verify_fix_generation(text)`. */
  function VerifyFixGeneration(v: Validator, text: string): Verdict
  {
    if v.regexp.Some? && !v.regexp.value(text) then Checked(text, false)
    else match v.validate
      case None => Checked(text, true)
      case Some(mode) =>
        if mode == "json" then Parsed(text, Strip(ExtractCodeBlock(text, "json")), v.jsonParses)
        else if mode == "yaml" then Parsed(text, StripIn(ExtractCodeBlock(text, "yaml"), {'\n'}), v.yamlParses)
        else if mode == "toml" then Parsed(text, StripIn(ExtractCodeBlock(text, "toml"), {'\n'}), v.tomlParses)
        else Exit
  }

  /** The text a known mode hands to its parser: the fenced body for that format, stripped of
      whitespace (json) or of newlines only (yaml, toml). */
  function Normalized(mode: string, text: string): (r: string)
    requires KnownMode(mode)
    ensures mode == "json" ==> r == [] || (!IsSpace(r[0]) && !IsSpace(r[|r| - 1]))
    ensures mode != "json" ==> r == [] || (r[0] != '\n' && r[|r| - 1] != '\n')
  {
    if mode == "json" then
      var r := Strip(ExtractCodeBlock(text, "json"));
      assert r == [] || (!IsSpace(r[0]) && !IsSpace(r[|r| - 1])) by {
        if r != [] {
          SpaceIsWhitespace(r[0]);
          SpaceIsWhitespace(r[|r| - 1]);
        }
      }
      r
    else StripIn(ExtractCodeBlock(text, mode), {'\n'})
  }

  /** The parser of a known mode. */
  function Parser(v: Validator, mode: string): string -> bool
  {
    if mode == "json" then v.jsonParses else if mode == "yaml" then v.yamlParses else v.tomlParses
  }

  /** A text the regular expression rejects is invalid and returned as it is, whatever the mode
      (even an unknown one: the regular expression is tried first). */
  lemma RegexpFirst(v: Validator, text: string)
    requires v.regexp.Some? && !v.regexp.value(text)
    ensures VerifyFixGeneration(v, text) == Checked(text, false)
  {
  }

  /** Without a validation mode, every text the regular expression lets through is valid and
      unchanged. */
  lemma NoModeAccepts(v: Validator, text: string)
    requires v.regexp.None? || v.regexp.value(text)
    requires v.validate.None?
    ensures VerifyFixGeneration(v, text) == Checked(text, true)
  {
  }

  /** An unknown mode ends the process, exactly for texts the regular expression lets
      through. */
  lemma ExitIff(v: Validator, text: string)
    ensures VerifyFixGeneration(v, text).Exit? <==>
      (v.regexp.None? || v.regexp.value(text)) && v.validate.Some? && !KnownMode(v.validate.value)
  {
  }

  /** A known mode: the text is valid exactly when the parser accepts its normalized form;
      a valid text is replaced by that form, an invalid one comes back as it was. */
  lemma KnownModeOutcome(v: Validator, text: string)
    requires v.regexp.None? || v.regexp.value(text)
    requires v.validate.Some? && KnownMode(v.validate.value)
    ensures var mode := v.validate.value;
      var n := Normalized(mode, text);
      VerifyFixGeneration(v, text) == if Parser(v, mode)(n) then Checked(n, true) else Checked(text, false)
  {
  }

  /** Whatever the outcome, a rejected text is the input itself and an accepted text is a
      contiguous piece of it. */
  lemma VerdictWithinText(v: Validator, text: string)
    ensures VerifyFixGeneration(v, text).Checked? && !VerifyFixGeneration(v, text).valid ==>
      VerifyFixGeneration(v, text).text == text
    ensures VerifyFixGeneration(v, text).Checked? ==>
      exists a, b :: 0 <= a <= b <= |text| && VerifyFixGeneration(v, text).text == text[a..b]
  {
    var r := VerifyFixGeneration(v, text);
    if r.Checked? {
      if r.text == text {
        assert text == text[0..|text|];
      } else {
        var mode := v.validate.value;
        var a, b := ExtractSpan(text, mode);
        var x := ExtractCodeBlock(text, mode);
        var cs := if mode == "json" then Whitespace else {'\n'};
        assert r.text == StripIn(x, cs) by {
          assert KnownMode(mode);
          if mode == "json" {
            assert r.text == Strip(x);
          }
        }
        var c, d := StripInSpan(x, cs);
        SliceOfSlice(text, a, b, c, d);
        assert r.text == text[a + c..a + d];
      }
    }
  }

  /** `verify_fix_generation` of validator `v` as a function value; `keep_valid_output` and the
      generator's decision below are stated for any such check. */
  function Verifier(v: Validator): (check: string -> Verdict)
    ensures forall text :: check(text) == VerifyFixGeneration(v, text)
  {
    text => VerifyFixGeneration(v, text)
  }

  /** What `list(keep_valid_output(texts))` produces: the valid (normalized) texts in input
      order, or the process exit met on the way. */
  datatype Kept = Kept(texts: seq<string>) | Exited

  /** `keep_valid_output` over `outputs[k..]`, each text verified by `check`. */
  function KeepValidFrom(check: string -> Verdict, outputs: seq<string>, k: nat): Kept
    requires k <= |outputs|
    decreases |outputs| - k
  {
    if k == |outputs| then Kept([])
    else match check(outputs[k])
      case Exit => Exited
      case Checked(t, ok) =>
        match KeepValidFrom(check, outputs, k + 1)
        case Exited => Exited
        case Kept(rest) => Kept(if ok then [t] + rest else rest)
  }

  function KeepValidOutput(check: string -> Verdict, outputs: seq<string>): Kept
  {
    KeepValidFrom(check, outputs, 0)
  }

  predicate Accepts(check: string -> Verdict, text: string)
  {
    check(text).Checked? && check(text).valid
  }

  /** The positions at or after `k` whose texts are valid, in increasing order. */
  function AcceptedFrom(check: string -> Verdict, outputs: seq<string>, k: nat): (ps: seq<nat>)
    requires k <= |outputs|
    ensures forall m :: 0 <= m < |ps| ==> k <= ps[m] < |outputs| && Accepts(check, outputs[ps[m]])
    ensures forall m, n :: 0 <= m < n < |ps| ==> ps[m] < ps[n]
    decreases |outputs| - k
  {
    if k == |outputs| then []
    else (if Accepts(check, outputs[k]) then [k] else []) + AcceptedFrom(check, outputs, k + 1)
  }

  /** No accepted position at or after `k` is missing from `AcceptedFrom`. */
  lemma {:induction false} AcceptedComplete(check: string -> Verdict, outputs: seq<string>, k: nat)
    requires k <= |outputs|
    ensures forall i :: k <= i < |outputs| && Accepts(check, outputs[i]) ==> i in AcceptedFrom(check, outputs, k)
    decreases |outputs| - k
  {
    if k < |outputs| {
      AcceptedComplete(check, outputs, k + 1);
      var ps, qs := AcceptedStep(check, outputs, k);
    }
  }

  /** Where an accepted position sits in `AcceptedFrom(check, outputs, 0)`. */
  lemma AcceptedAt(check: string -> Verdict, outputs: seq<string>, i: nat) returns (m: nat)
    requires i < |outputs| && Accepts(check, outputs[i])
    ensures m < |AcceptedFrom(check, outputs, 0)| && AcceptedFrom(check, outputs, 0)[m] == i
  {
    AcceptedComplete(check, outputs, 0);
    m :| 0 <= m < |AcceptedFrom(check, outputs, 0)| && AcceptedFrom(check, outputs, 0)[m] == i;
  }

  /** `keep_valid_output` keeps exactly the accepted texts, each as the check returned it, in
      the order of the input; it exits exactly when some text meets an unknown mode. */
  lemma KeepValidOrder(check: string -> Verdict, outputs: seq<string>, k: nat)
    requires k <= |outputs|
    ensures KeepValidFrom(check, outputs, k).Exited? <==>
      exists i :: k <= i < |outputs| && check(outputs[i]).Exit?
    ensures KeepValidFrom(check, outputs, k).Kept? ==>
      TextsAt(check, outputs, KeepValidFrom(check, outputs, k).texts, AcceptedFrom(check, outputs, k))
  {
    KeepExitIff(check, outputs, k);
    KeepTexts(check, outputs, k);
  }

  lemma {:induction false} KeepExitIff(check: string -> Verdict, outputs: seq<string>, k: nat)
    requires k <= |outputs|
    ensures KeepValidFrom(check, outputs, k).Exited? <==>
      exists i :: k <= i < |outputs| && check(outputs[i]).Exit?
    decreases |outputs| - k
  {
    if k < |outputs| {
      KeepExitIff(check, outputs, k + 1);
      if !check(outputs[k]).Exit? {
        assert (exists i :: k <= i < |outputs| && check(outputs[i]).Exit?) ==>
          exists i :: k + 1 <= i < |outputs| && check(outputs[i]).Exit?;
      }
    }
  }

  /** The texts kept from `k` on are those the check returned at the accepted positions. */
  predicate TextsAt(check: string -> Verdict, outputs: seq<string>, texts: seq<string>, ps: seq<nat>)
  {
    && |texts| == |ps|
    && forall m :: 0 <= m < |texts| ==>
         ps[m] < |outputs| && check(outputs[ps[m]]).Checked? && texts[m] == check(outputs[ps[m]]).text
  }

  lemma {:induction false} KeepTexts(check: string -> Verdict, outputs: seq<string>, k: nat)
    requires k <= |outputs|
    ensures KeepValidFrom(check, outputs, k).Kept? ==>
      TextsAt(check, outputs, KeepValidFrom(check, outputs, k).texts, AcceptedFrom(check, outputs, k))
    decreases |outputs| - k
  {
    if k < |outputs| && KeepValidFrom(check, outputs, k).Kept? {
      KeepTexts(check, outputs, k + 1);
      var r, rest := KeepFromStep(check, outputs, k);
      var ps, qs := AcceptedStep(check, outputs, k);
      if Accepts(check, outputs[k]) {
        TextsAtCons(check, outputs, k, rest, qs, r, ps);
      }
    }
  }

  /** An accepted text in front of the texts of the later accepted positions. */
  lemma TextsAtCons(check: string -> Verdict, outputs: seq<string>, k: nat, rest: seq<string>, qs: seq<nat>,
                    r: seq<string>, ps: seq<nat>)
    requires k < |outputs| && Accepts(check, outputs[k]) && TextsAt(check, outputs, rest, qs)
    requires r == [check(outputs[k]).text] + rest && ps == [k] + qs
    ensures TextsAt(check, outputs, r, ps)
  {
    forall m | 0 < m < |r|
      ensures r[m] == rest[m - 1] && ps[m] == qs[m - 1]
    {
    }
  }

  /** One step of `keep_valid_output` that did not exit: the texts kept from `k` on are
      those kept from `k + 1` on, with the text at `k` in front when it is valid. */
  lemma KeepFromStep(check: string -> Verdict, outputs: seq<string>, k: nat)
    returns (r: seq<string>, rest: seq<string>)
    requires k < |outputs| && KeepValidFrom(check, outputs, k).Kept?
    ensures KeepValidFrom(check, outputs, k) == Kept(r)
    ensures KeepValidFrom(check, outputs, k + 1) == Kept(rest) && check(outputs[k]).Checked?
    ensures Accepts(check, outputs[k]) ==> r == [check(outputs[k]).text] + rest
    ensures !Accepts(check, outputs[k]) ==> r == rest
  {
    r := KeepValidFrom(check, outputs, k).texts;
    rest := KeepValidFrom(check, outputs, k + 1).texts;
  }

  /** One step of `AcceptedFrom`: position `k` comes first when its text is valid. */
  lemma AcceptedStep(check: string -> Verdict, outputs: seq<string>, k: nat)
    returns (ps: seq<nat>, qs: seq<nat>)
    requires k < |outputs|
    ensures ps == AcceptedFrom(check, outputs, k) && qs == AcceptedFrom(check, outputs, k + 1)
    ensures Accepts(check, outputs[k]) ==> ps == [k] + qs
    ensures !Accepts(check, outputs[k]) ==> ps == qs
  {
    ps := AcceptedFrom(check, outputs, k);
    qs := AcceptedFrom(check, outputs, k + 1);
  }
}
