/** findUsername: picking the (name, value) pair that most likely holds the
    user name of a form, tier by tier over five input selectors. The selectors
    are explicit predicates on an input's `type` and `name`. */
module Username {
  import opened Text
  import opened QueryItems
  import opened Document

  datatype Option<T> = None | Some(value: T)

  /** The selector shapes findUsername uses. */
  datatype Rule =
    | TypeAndNameContains(inputType: string, part: string)  // input[type="t"][name*="part"]
    | TypeIs(inputType: string)                             // input[type="t"]
    | NotTypedBoth(a: string, b: string)                    // input:not([type="a"][type="b"])
    | TypedNeither(a: string, b: string)                    // input:not([type="a"]):not([type="b"])

  /** Whether an input matches a selector. */
  predicate Matches(rule: Rule, e: InputElement) {
    match rule
    case TypeAndNameContains(t, part) => e.inputType == t && Contains(e.name, part)
    case TypeIs(t) => e.inputType == t
    case NotTypedBoth(a, b) => !(e.inputType == a && e.inputType == b)
    case TypedNeither(a, b) => e.inputType != a && e.inputType != b
  }

  /** The five selectors in the order the source lists them. */
  const SourceRules: seq<Rule> := [
    TypeAndNameContains("text", "user"),
    TypeAndNameContains("text", "name"),
    TypeIs("text"),
    TypeIs("email"),
    NotTypedBoth("hidden", "password")
  ]

  /** The same list with the fallback selector excluding hidden inputs and
      password inputs (`input:not([type="hidden"]):not([type="password"])`). */
  const IntendedRules: seq<Rule> := [
    TypeAndNameContains("text", "user"),
    TypeAndNameContains("text", "name"),
    TypeIs("text"),
    TypeIs("email"),
    TypedNeither("hidden", "password")
  ]

  /** An input a tier may return: it matches and has a name and a live value. */
  predicate Eligible(rule: Rule, e: InputElement) {
    Matches(rule, e) && e.name != [] && e.live != []
  }

  /** The first eligible input of one tier, as a pair, or nothing. */
  function FirstEligible(rule: Rule, inputs: seq<InputElement>): (r: Option<QueryItem>)
    ensures r.Some? ==> exists i :: (0 <= i < |inputs| && Eligible(rule, inputs[i])
      && (forall j :: 0 <= j < i ==> !Eligible(rule, inputs[j]))
      && r.value == QueryItem(inputs[i].name, inputs[i].live))
    ensures r.None? ==> forall i :: 0 <= i < |inputs| ==> !Eligible(rule, inputs[i])
  {
    if inputs == [] then None
    else if Eligible(rule, inputs[0]) then Some(QueryItem(inputs[0].name, inputs[0].live))
    else
      var r := FirstEligible(rule, inputs[1..]);
      if r.Some? then
        var i :| 0 <= i < |inputs[1..]| && Eligible(rule, inputs[1..][i])
          && (forall j :: 0 <= j < i ==> !Eligible(rule, inputs[1..][j]))
          && r.value == QueryItem(inputs[1..][i].name, inputs[1..][i].live);
        assert Eligible(rule, inputs[i + 1]);
        r
      else r
  }

  /** findUsername over a list of selectors: the first tier that has an
      eligible input decides; the empty pair when none has. */
  function FindUsernameBy(rules: seq<Rule>, form: Form): (item: QueryItem)
    ensures item == QueryItem("", "") || (item.key != [] && item.value != [])
  {
    if rules == [] then QueryItem("", "")
    else
      match FirstEligible(rules[0], form.inputs)
      case Some(item) => item
      case None => FindUsernameBy(rules[1..], form)
  }

  /** findUsername as written. Because its fallback selector matches every
      input, it finds a pair whenever some input of the form has a non-empty
      name and live value, and the pair it finds is always such an input's. */
  function FindUsername(form: Form): (item: QueryItem)
    ensures item != QueryItem("", "") <==>
      exists i :: 0 <= i < |form.inputs| && form.inputs[i].name != [] && form.inputs[i].live != []
    ensures item != QueryItem("", "") ==>
      exists i :: 0 <= i < |form.inputs| && item == QueryItem(form.inputs[i].name, form.inputs[i].live)
  {
    SourceRulesFind(form);
    FindUsernameBy(SourceRules, form)
  }

  lemma SourceRulesFind(form: Form)
    ensures FindUsernameBy(SourceRules, form) != QueryItem("", "") <==>
      exists i :: 0 <= i < |form.inputs| && form.inputs[i].name != [] && form.inputs[i].live != []
    ensures FindUsernameBy(SourceRules, form) != QueryItem("", "") ==>
      exists i :: 0 <= i < |form.inputs| && FindUsernameBy(SourceRules, form) == QueryItem(form.inputs[i].name, form.inputs[i].live)
  {
    if exists i :: 0 <= i < |form.inputs| && form.inputs[i].name != [] && form.inputs[i].live != [] {
      var i :| 0 <= i < |form.inputs| && form.inputs[i].name != [] && form.inputs[i].live != [];
      assert Eligible(SourceRules[4], form.inputs[i]);
      SomeTierFinds(SourceRules, form, 4, i);
    }
    if FindUsernameBy(SourceRules, form) != QueryItem("", "") {
      FindUsernameFromForm(SourceRules, form);
    }
  }

  /** When some tier has an eligible input, a pair is found. */
  lemma {:induction false} SomeTierFinds(rules: seq<Rule>, form: Form, t: nat, i: nat)
    requires t < |rules| && i < |form.inputs| && Eligible(rules[t], form.inputs[i])
    ensures FindUsernameBy(rules, form) != QueryItem("", "")
    decreases t
  {
    if FirstEligible(rules[0], form.inputs).None? {
      assert rules[1..][t - 1] == rules[t];
      SomeTierFinds(rules[1..], form, t - 1, i);
    }
  }

  /** Tier `t` holds the first eligible input, at `i`: every earlier tier has
      none, and no earlier input of tier `t` is eligible. */
  predicate FirstHit(rules: seq<Rule>, inputs: seq<InputElement>, t: int, i: int) {
    0 <= t < |rules| && 0 <= i < |inputs| && Eligible(rules[t], inputs[i])
    && (forall t', j :: 0 <= t' < t && 0 <= j < |inputs| ==> !Eligible(rules[t'], inputs[j]))
    && (forall j :: 0 <= j < i ==> !Eligible(rules[t], inputs[j]))
  }

  /** The tiers are tried in order: the result is the first eligible input of
      the earliest tier that has one, and the empty pair when no tier has one. */
  lemma {:induction false} FindUsernameTiers(rules: seq<Rule>, form: Form)
    ensures (forall t, i :: 0 <= t < |rules| && 0 <= i < |form.inputs| ==> !Eligible(rules[t], form.inputs[i]))
      ==> FindUsernameBy(rules, form) == QueryItem("", "")
    ensures forall t, i :: (FirstHit(rules, form.inputs, t, i)
      ==> FindUsernameBy(rules, form) == QueryItem(form.inputs[i].name, form.inputs[i].live))
    decreases |rules|
  {
    if rules != [] {
      FindUsernameTiers(rules[1..], form);
      forall t, i | FirstHit(rules, form.inputs, t, i)
        ensures FindUsernameBy(rules, form) == QueryItem(form.inputs[i].name, form.inputs[i].live)
      {
        if t > 0 {
          assert FirstEligible(rules[0], form.inputs).None?;
          assert FirstHit(rules[1..], form.inputs, t - 1, i);
        } else {
          var r := FirstEligible(rules[0], form.inputs);
          var k :| 0 <= k < |form.inputs| && Eligible(rules[0], form.inputs[k])
            && (forall j :: 0 <= j < k ==> !Eligible(rules[0], form.inputs[j]))
            && r.value == QueryItem(form.inputs[k].name, form.inputs[k].live);
          assert k == i;
        }
      }
      if forall t, i :: 0 <= t < |rules| && 0 <= i < |form.inputs| ==> !Eligible(rules[t], form.inputs[i]) {
        assert forall i :: 0 <= i < |form.inputs| ==> !Eligible(rules[0], form.inputs[i]);
        assert forall t, i :: 0 <= t < |rules[1..]| && 0 <= i < |form.inputs| ==> !Eligible(rules[1..][t], form.inputs[i]) by {
          forall t, i | 0 <= t < |rules[1..]| && 0 <= i < |form.inputs|
            ensures !Eligible(rules[1..][t], form.inputs[i])
          {
            assert rules[1..][t] == rules[t + 1];
          }
        }
      }
    }
  }

  /** A non-empty result is always some input of the form with a non-empty
      name and live value that one of the tiers matches. */
  lemma {:induction false} FindUsernameFromForm(rules: seq<Rule>, form: Form)
    requires FindUsernameBy(rules, form) != QueryItem("", "")
    ensures exists t, i :: (FirstHit(rules, form.inputs, t, i)
      && FindUsernameBy(rules, form) == QueryItem(form.inputs[i].name, form.inputs[i].live))
    decreases |rules|
  {
    var r := FirstEligible(rules[0], form.inputs);
    if r.Some? {
      var i :| 0 <= i < |form.inputs| && Eligible(rules[0], form.inputs[i])
        && (forall j :: 0 <= j < i ==> !Eligible(rules[0], form.inputs[j]))
        && r.value == QueryItem(form.inputs[i].name, form.inputs[i].live);
      assert FirstHit(rules, form.inputs, 0, i);
    } else {
      FindUsernameFromForm(rules[1..], form);
      var t, i :| FirstHit(rules[1..], form.inputs, t, i)
        && FindUsernameBy(rules[1..], form) == QueryItem(form.inputs[i].name, form.inputs[i].live);
      assert FirstHit(rules, form.inputs, t + 1, i) by {
        forall t', j | 0 <= t' < t + 1 && 0 <= j < |form.inputs|
          ensures !Eligible(rules[t'], form.inputs[j])
        {
          if t' > 0 {
            assert rules[t'] == rules[1..][t' - 1];
          }
        }
      }
    }
  }

  /** Read as the predicate it spells, the fifth selector excludes nothing:
      no input has a `type` that is both `hidden` and `password`. */
  lemma LastSourceRuleMatchesEverything(e: InputElement)
    ensures Matches(SourceRules[4], e)
  {
  }

  /** With the intended selectors, a hidden or password input is never taken
      for the user name. */
  lemma IntendedRulesSkipHiddenAndPassword(form: Form)
    ensures forall i :: (0 <= i < |form.inputs| && (form.inputs[i].inputType == "hidden" || form.inputs[i].inputType == "password")
      ==> forall t :: 0 <= t < |IntendedRules| ==> !Matches(IntendedRules[t], form.inputs[i]))
  {
  }

  /** The user name the intended selectors pick is never the pair of a hidden
      or password input. */
  lemma IntendedUsernameNotHiddenOrPassword(form: Form)
    requires FindUsernameBy(IntendedRules, form) != QueryItem("", "")
    ensures exists i :: (0 <= i < |form.inputs|
      && FindUsernameBy(IntendedRules, form) == QueryItem(form.inputs[i].name, form.inputs[i].live)
      && form.inputs[i].inputType != "hidden" && form.inputs[i].inputType != "password")
  {
    FindUsernameFromForm(IntendedRules, form);
    var t, i :| FirstHit(IntendedRules, form.inputs, t, i)
      && FindUsernameBy(IntendedRules, form) == QueryItem(form.inputs[i].name, form.inputs[i].live);
    IntendedRulesSkipHiddenAndPassword(form);
  }
}
