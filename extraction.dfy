/** extractFormData: recovering the submitted credentials from a POST body by
    looking for a password input of the page whose (name, live value) was
    submitted, and then for that form's user name. */
module Extraction {
  import opened Text
  import opened Normalizer
  import opened QueryItems
  import opened Document
  import opened Username

  /** PageFormData: whether credentials were found, the credentials, and the
      (normalised) body they were read from. */
  datatype PageFormData = PageFormData(found: bool, username: string, password: string, postData: string)

  /** A user name and a password. */
  datatype Credentials = Credentials(username: string, password: string)

  /** A password input whose (name, live value) pair was submitted, with the
      form it was found in. */
  datatype Candidate = Candidate(form: Form, input: InputElement)

  /** `input[type="password"]` within a form, in document order. */
  function PasswordInputs(inputs: seq<InputElement>): seq<InputElement> {
    if inputs == [] then []
    else (if inputs[0].inputType == "password" then [inputs[0]] else []) + PasswordInputs(inputs[1..])
  }

  /** The selection keeps exactly the inputs typed `password`. */
  lemma {:induction false} PasswordInputsSpec(inputs: seq<InputElement>)
    ensures forall i :: 0 <= i < |PasswordInputs(inputs)| ==>
      PasswordInputs(inputs)[i] in inputs && PasswordInputs(inputs)[i].inputType == "password"
    ensures forall i :: 0 <= i < |inputs| && inputs[i].inputType == "password" ==> inputs[i] in PasswordInputs(inputs)
  {
    if inputs != [] {
      PasswordInputsSpec(inputs[1..]);
      assert inputs == [inputs[0]] + inputs[1..];
    }
  }

  /** The selection keeps document order: selecting from two runs of inputs
      is selecting from each, one after the other. */
  lemma {:induction false} PasswordInputsAppend(a: seq<InputElement>, b: seq<InputElement>)
    ensures PasswordInputs(a + b) == PasswordInputs(a) + PasswordInputs(b)
    decreases |a|
  {
    if a == [] {
      assert a + b == b;
    } else {
      var head: seq<InputElement> := if a[0].inputType == "password" then [a[0]] else [];
      assert (a + b)[0] == a[0];
      assert (a + b)[1..] == a[1..] + b;
      assert PasswordInputs(a + b) == head + PasswordInputs(a[1..] + b);
      assert PasswordInputs(a) == head + PasswordInputs(a[1..]);
      PasswordInputsAppend(a[1..], b);
    }
  }

  /** The candidates among `inputs` of `form`, in order. */
  function FormCandidates(form: Form, inputs: seq<InputElement>, items: seq<QueryItem>): seq<Candidate> {
    if inputs == [] then []
    else
      var last := inputs[|inputs| - 1];
      FormCandidates(form, inputs[..|inputs| - 1], items)
        + (if QueryItemsContains(items, last.name, last.live) then [Candidate(form, last)] else [])
  }

  /** Each candidate of a form is one of its inputs whose pair was submitted. */
  lemma {:induction false} FormCandidatesValid(form: Form, inputs: seq<InputElement>, items: seq<QueryItem>)
    ensures forall c :: c in FormCandidates(form, inputs, items) ==>
      c.form == form && c.input in inputs && QueryItemsContains(items, c.input.name, c.input.live)
  {
    if inputs != [] {
      FormCandidatesValid(form, inputs[..|inputs| - 1], items);
      assert forall e :: e in inputs[..|inputs| - 1] ==> e in inputs;
    }
  }

  /** Candidates keep input order. */
  lemma {:induction false} FormCandidatesAppend(form: Form, a: seq<InputElement>, b: seq<InputElement>, items: seq<QueryItem>)
    ensures FormCandidates(form, a + b, items) == FormCandidates(form, a, items) + FormCandidates(form, b, items)
    decreases |b|
  {
    if b == [] {
      assert a + b == a;
    } else {
      assert (a + b)[..|a + b| - 1] == a + b[..|b| - 1];
      assert (a + b)[|a + b| - 1] == b[|b| - 1];
      FormCandidatesAppend(form, a, b[..|b| - 1], items);
    }
  }

  /** Every input of the form whose (name, live value) was submitted is a candidate. */
  lemma {:induction false} FormCandidatesComplete(form: Form, inputs: seq<InputElement>, items: seq<QueryItem>, e: InputElement)
    requires e in inputs && QueryItemsContains(items, e.name, e.live)
    ensures Candidate(form, e) in FormCandidates(form, inputs, items)
    decreases |inputs|
  {
    if e != inputs[|inputs| - 1] {
      assert inputs == inputs[..|inputs| - 1] + [inputs[|inputs| - 1]];
      FormCandidatesComplete(form, inputs[..|inputs| - 1], items, e);
    }
  }

  /** The candidates of one form. */
  function FormCandidatesOf(form: Form, items: seq<QueryItem>): seq<Candidate> {
    FormCandidates(form, PasswordInputs(form.inputs), items)
  }

  /** Every candidate of the page, in form order and within a form in input order. */
  function Candidates(forms: seq<Form>, items: seq<QueryItem>): seq<Candidate> {
    if forms == [] then []
    else
      var last := forms[|forms| - 1];
      Candidates(forms[..|forms| - 1], items) + FormCandidatesOf(last, items)
  }

  /** Each candidate is a submitted password input of one of the forms. */
  lemma {:induction false} CandidatesValid(forms: seq<Form>, items: seq<QueryItem>)
    ensures forall c :: c in Candidates(forms, items) ==>
      c.form in forms && c.input in c.form.inputs
      && c.input.inputType == "password" && QueryItemsContains(items, c.input.name, c.input.live)
  {
    if forms != [] {
      var last := forms[|forms| - 1];
      CandidatesValid(forms[..|forms| - 1], items);
      FormCandidatesValid(last, PasswordInputs(last.inputs), items);
      PasswordInputsSpec(last.inputs);
      assert forall f :: f in forms[..|forms| - 1] ==> f in forms;
    }
  }

  /** Candidates keep form order. */
  lemma {:induction false} CandidatesAppend(a: seq<Form>, b: seq<Form>, items: seq<QueryItem>)
    ensures Candidates(a + b, items) == Candidates(a, items) + Candidates(b, items)
    decreases |b|
  {
    if b == [] {
      assert a + b == a;
    } else {
      var init, last := b[..|b| - 1], b[|b| - 1];
      assert (a + b)[..|a + b| - 1] == a + init;
      assert (a + b)[|a + b| - 1] == last;
      assert Candidates(a + b, items) == Candidates(a + init, items) + FormCandidatesOf(last, items);
      assert Candidates(b, items) == Candidates(init, items) + FormCandidatesOf(last, items);
      CandidatesAppend(a, init, items);
    }
  }

  /** Every password input of the page's forms whose (name, live value) was
      submitted is a candidate. */
  lemma {:induction false} CandidatesComplete(forms: seq<Form>, items: seq<QueryItem>, f: Form, e: InputElement)
    requires f in forms && e in f.inputs && e.inputType == "password"
    requires QueryItemsContains(items, e.name, e.live)
    ensures Candidate(f, e) in Candidates(forms, items)
    decreases |forms|
  {
    var last := forms[|forms| - 1];
    if f == last {
      PasswordInputsSpec(f.inputs);
      var i :| 0 <= i < |f.inputs| && f.inputs[i] == e;
      FormCandidatesComplete(f, PasswordInputs(f.inputs), items, e);
    } else {
      assert forms == forms[..|forms| - 1] + [last];
      CandidatesComplete(forms[..|forms| - 1], items, f, e);
    }
  }

  /** The form's user-name pair, as `rules` pick it, was submitted too. */
  predicate Confirms(rules: seq<Rule>, items: seq<QueryItem>, form: Form) {
    var u := FindUsernameBy(rules, form);
    QueryItemsContains(items, u.key, u.value)
  }

  /** Index of the first candidate whose form confirms, or |cs| when none does. */
  function FirstConfirmed(cs: seq<Candidate>, rules: seq<Rule>, items: seq<QueryItem>): (i: nat)
    ensures i <= |cs|
    ensures i < |cs| ==> Confirms(rules, items, cs[i].form)
    ensures forall j :: 0 <= j < i ==> !Confirms(rules, items, cs[j].form)
  {
    if cs == [] then 0
    else if Confirms(rules, items, cs[0].form) then 0
    else 1 + FirstConfirmed(cs[1..], rules, items)
  }

  /** Live value of the last candidate, or empty. */
  function LastLive(cs: seq<Candidate>): string {
    if cs == [] then [] else cs[|cs| - 1].input.live
  }

  /** What extractFormData reports: the first candidate whose form confirms,
      with that form's user name; failing that the last candidate's password
      with no user name; failing that nothing. */
  function Expected(forms: seq<Form>, items: seq<QueryItem>, rules: seq<Rule>): (r: Credentials)
    ensures r.password != [] <==> Candidates(forms, items) != []
    ensures r.password == [] ==> r.username == []
    ensures r.password != [] ==> exists c :: c in Candidates(forms, items) && r.password == c.input.live
    ensures r.username != [] ==> exists c :: (c in Candidates(forms, items) && r.password == c.input.live
      && Confirms(rules, items, c.form) && r.username == FindUsernameBy(rules, c.form).value)
  {
    var cs := Candidates(forms, items);
    CandidatesValid(forms, items);
    var i := FirstConfirmed(cs, rules, items);
    if i < |cs| then
      assert cs[i] in cs;
      Credentials(FindUsernameBy(rules, cs[i].form).value, cs[i].input.live)
    else
      if cs != [] then assert cs[|cs| - 1] in cs; Credentials("", LastLive(cs))
      else Credentials("", "")
  }

  /** A submitted password input anywhere in the page's forms means a
      password is reported, whichever form it comes from. */
  lemma SubmittedPasswordFound(forms: seq<Form>, items: seq<QueryItem>, rules: seq<Rule>, f: Form, e: InputElement)
    requires f in forms && e in f.inputs && e.inputType == "password"
    requires QueryItemsContains(items, e.name, e.live)
    ensures Expected(forms, items, rules).password != []
  {
    CandidatesComplete(forms, items, f, e);
  }

  lemma {:induction false} FormCandidatesPrefix(form: Form, inputs: seq<InputElement>, items: seq<QueryItem>, k: nat)
    requires k <= |inputs|
    ensures FormCandidates(form, inputs[..k], items) <= FormCandidates(form, inputs, items)
    decreases |inputs|
  {
    if k < |inputs| {
      assert inputs[..|inputs| - 1][..k] == inputs[..k];
      FormCandidatesPrefix(form, inputs[..|inputs| - 1], items, k);
    } else {
      assert inputs[..k] == inputs;
    }
  }

  lemma {:induction false} CandidatesPrefix(forms: seq<Form>, items: seq<QueryItem>, m: nat)
    requires m <= |forms|
    ensures Candidates(forms[..m], items) <= Candidates(forms, items)
    decreases |forms|
  {
    if m < |forms| {
      assert forms[..|forms| - 1][..m] == forms[..m];
      CandidatesPrefix(forms[..|forms| - 1], items, m);
    } else {
      assert forms[..m] == forms;
    }
  }

  /** extractFormData. `decode` stands for QUrlQuery's decoding of the body,
      `rules` for the selectors findUsername tries (`SourceRules` as written). */
  method ExtractFormData(postData: string, page: Frame, decode: string -> seq<QueryItem>, rules: seq<Rule>)
    returns (formData: PageFormData)
    ensures formData.postData == Normalize(postData)
    ensures formData.postData == [] || '=' !in formData.postData
      ==> !formData.found && formData.username == [] && formData.password == []
    ensures formData.found <==> formData.password != []
    ensures formData.postData != [] && '=' in formData.postData
      ==> Credentials(formData.username, formData.password)
          == Expected(AllForms(page), PlusPass(decode(formData.postData)), rules)
  {
    var data := ConvertWebKitFormBoundaryIfNecessary(postData);
    formData := PageFormData(false, [], [], data);
    if data == [] {
      return;
    }
    if '=' !in data {
      return;
    }
    var allForms := GetAllElementsFromPage(page, FormsOf);
    var queryItems := CreateQueryItems(data, decode);
    var usernameValue, passwordValue := SearchForms(allForms, queryItems, rules);
    if passwordValue == [] {
      return;
    }
    formData := formData.(found := true, username := usernameValue, password := passwordValue);
  }

  /** The outer loop of extractFormData, over the forms of the page: it stops
      at the first form where the inner loop found confirmed credentials. */
  method SearchForms(allForms: seq<Form>, queryItems: seq<QueryItem>, rules: seq<Rule>)
    returns (usernameValue: string, passwordValue: string)
    ensures Credentials(usernameValue, passwordValue) == Expected(allForms, queryItems, rules)
  {
    usernameValue := [];
    passwordValue := [];
    var found := false;
    var fi := 0;
    while fi < |allForms|
      invariant fi <= |allForms| && usernameValue == []
      invariant forall j :: 0 <= j < |Candidates(allForms[..fi], queryItems)| ==>
        !Confirms(rules, queryItems, Candidates(allForms[..fi], queryItems)[j].form)
      invariant passwordValue == LastLive(Candidates(allForms[..fi], queryItems))
    {
      var formElement := allForms[fi];
      ghost var before := Candidates(allForms[..fi], queryItems);
      found, usernameValue, passwordValue := SearchForm(formElement, queryItems, rules, passwordValue);
      ghost var here := FormCandidatesOf(formElement, queryItems);
      FormCandidatesValid(formElement, PasswordInputs(formElement.inputs), queryItems);
      assert allForms[..fi + 1][..fi] == allForms[..fi];
      assert Candidates(allForms[..fi + 1], queryItems) == before + here;
      if found {
        FoundIn(allForms, queryItems, rules, fi);
        break;
      }
      LastLiveAppend(before, here);
      fi := fi + 1;
    }
    if !found {
      assert allForms[..fi] == allForms;
      NoneConfirmed(allForms, queryItems, rules);
    }
  }

  /** The inner loop of extractFormData, over the password inputs of one form.
      Each one whose (name, live value) was submitted becomes the password; if
      the form's user-name pair was submitted too the search stops there.
      `passwordValue` starts out as `passwordIn`. */
  method SearchForm(formElement: Form, queryItems: seq<QueryItem>, rules: seq<Rule>, passwordIn: string)
    returns (found: bool, usernameValue: string, passwordValue: string)
    ensures found <==> FormCandidatesOf(formElement, queryItems) != [] && Confirms(rules, queryItems, formElement)
    ensures found ==> (usernameValue == FindUsernameBy(rules, formElement).value
      && passwordValue == FormCandidatesOf(formElement, queryItems)[0].input.live)
    ensures !found ==> (usernameValue == []
      && passwordValue == if FormCandidatesOf(formElement, queryItems) == [] then passwordIn
                          else LastLive(FormCandidatesOf(formElement, queryItems)))
  {
    found := false;
    usernameValue := [];
    passwordValue := passwordIn;
    var inputs := PasswordInputs(formElement.inputs);
    assert FormCandidatesOf(formElement, queryItems) == FormCandidates(formElement, inputs, queryItems);
    ghost var cs: seq<Candidate> := [];
    var k := 0;
    while k < |inputs|
      invariant k <= |inputs| && !found && usernameValue == []
      invariant cs == FormCandidates(formElement, inputs[..k], queryItems)
      invariant cs != [] ==> !Confirms(rules, queryItems, formElement)
      invariant cs == [] ==> passwordValue == passwordIn
      invariant cs != [] ==> passwordValue == LastLive(cs)
    {
      var inputElement := inputs[k];
      FormCandidatesStep(formElement, inputs, queryItems, k);
      if QueryItemsContains(queryItems, inputElement.name, inputElement.live) {
        passwordValue := inputElement.live;
        cs := cs + [Candidate(formElement, inputElement)];
        var item := FindUsernameBy(rules, formElement);
        if QueryItemsContains(queryItems, item.key, item.value) {
          usernameValue := item.value;
          found := true;
          FirstCandidateAt(formElement, inputs, queryItems, k);
          break;
        }
      }
      k := k + 1;
    }
    if !found {
      assert inputs[..k] == inputs;
    }
  }

  /** The inner loop's exit at input `k`: nothing before `k` was a
      candidate, so the candidate at `k` is the form's first. */
  lemma FirstCandidateAt(form: Form, inputs: seq<InputElement>, items: seq<QueryItem>, k: nat)
    requires k < |inputs| && FormCandidates(form, inputs[..k], items) == []
    requires QueryItemsContains(items, inputs[k].name, inputs[k].live)
    ensures FormCandidates(form, inputs, items) != []
    ensures FormCandidates(form, inputs, items)[0] == Candidate(form, inputs[k])
  {
    FormCandidatesStep(form, inputs, items, k);
    FormCandidatesPrefix(form, inputs, items, k + 1);
  }

  lemma FormCandidatesStep(form: Form, inputs: seq<InputElement>, items: seq<QueryItem>, k: nat)
    requires k < |inputs|
    ensures FormCandidates(form, inputs[..k + 1], items)
      == FormCandidates(form, inputs[..k], items)
         + if QueryItemsContains(items, inputs[k].name, inputs[k].live) then [Candidate(form, inputs[k])] else []
  {
    assert inputs[..k + 1][..k] == inputs[..k];
  }

  lemma LastLiveAppend(a: seq<Candidate>, b: seq<Candidate>)
    ensures LastLive(a + b) == if b == [] then LastLive(a) else LastLive(b)
  {
    if b == [] {
      assert a + b == a;
    }
  }

  /** The outer loop's exit at form `fi`: no earlier candidate confirms and
      this form's candidates confirm, so the first of them is the answer. */
  lemma FoundIn(forms: seq<Form>, items: seq<QueryItem>, rules: seq<Rule>, fi: nat)
    requires fi < |forms|
    requires forall j :: 0 <= j < |Candidates(forms[..fi], items)| ==>
      !Confirms(rules, items, Candidates(forms[..fi], items)[j].form)
    requires FormCandidatesOf(forms[fi], items) != []
    requires Confirms(rules, items, forms[fi])
    ensures Expected(forms, items, rules)
      == Credentials(FindUsernameBy(rules, forms[fi]).value,
                     FormCandidatesOf(forms[fi], items)[0].input.live)
  {
    var before := Candidates(forms[..fi], items);
    var here := FormCandidatesOf(forms[fi], items);
    FormCandidatesValid(forms[fi], PasswordInputs(forms[fi].inputs), items);
    CandidatesPrefix(forms, items, fi + 1);
    assert forms[..fi + 1][..fi] == forms[..fi];
    assert Candidates(forms[..fi + 1], items) == before + here;
    var cs := Candidates(forms, items);
    assert cs[|before|] == here[0];
    assert here[0] in here;
    var i := FirstConfirmed(cs, rules, items);
    assert i == |before|;
  }

  /** Loop exit without a break: no candidate confirms. */
  lemma NoneConfirmed(forms: seq<Form>, items: seq<QueryItem>, rules: seq<Rule>)
    requires forall j :: 0 <= j < |Candidates(forms, items)| ==> !Confirms(rules, items, Candidates(forms, items)[j].form)
    ensures Expected(forms, items, rules) == Credentials("", LastLive(Candidates(forms, items)))
  {
    var cs := Candidates(forms, items);
    if cs != [] {
      assert cs[|cs| - 1] in cs;
    }
  }

  /** A page with one frame holding one form whose only input is `e`. */
  function SingleInputPage(e: InputElement): Frame {
    Frame([Form([e])], [e], [])
  }

  lemma SingleInputPageForms(e: InputElement)
    ensures AllForms(SingleInputPage(e)) == [Form([e])]
  {
    var main := SingleInputPage(e);
    assert Bfs([main]) == [main] + Bfs([main][1..] + main.children);
    assert [main][1..] + main.children == [];
    assert FrameOrder(main) == [main];
    assert Collect([main], FormsOf) == main.forms + Collect([main][1..], FormsOf);
  }

  /** As written: a login form with nothing but a password input, submitted
      as `pass=secret`, yields the password as the user name too, because the
      fifth selector also matches the password input. */
  lemma PasswordOnlyFormAsWritten(e: InputElement)
    requires e.inputType == "password" && e.name == "pass" && e.live == "secret"
    ensures Expected(AllForms(SingleInputPage(e)), [QueryItem("pass", "secret")], SourceRules)
      == Credentials("secret", "secret")
  {
    SingleInputPageForms(e);
    var forms := [Form([e])];
    var items := [QueryItem("pass", "secret")];
    assert [e][..0] == [];
    assert PasswordInputs([e]) == [e];
    assert FormCandidates(Form([e]), [e], items) == [Candidate(Form([e]), e)];
    assert forms[..0] == [];
    assert Candidates(forms, items) == [Candidate(Form([e]), e)];
    assert Eligible(SourceRules[4], e);
    FindUsernameTiers(SourceRules, Form([e]));
    assert FirstHit(SourceRules, [e], 4, 0);
    assert FindUsernameBy(SourceRules, Form([e])) == QueryItem("pass", "secret");
  }

  /** With the intended fifth selector the same submission yields the
      password and no user name. */
  lemma PasswordOnlyFormIntended(e: InputElement)
    requires e.inputType == "password" && e.name == "pass" && e.live == "secret"
    ensures Expected(AllForms(SingleInputPage(e)), [QueryItem("pass", "secret")], IntendedRules)
      == Credentials("", "secret")
  {
    SingleInputPageForms(e);
    var forms := [Form([e])];
    var items := [QueryItem("pass", "secret")];
    assert [e][..0] == [];
    assert PasswordInputs([e]) == [e];
    assert FormCandidates(Form([e]), [e], items) == [Candidate(Form([e]), e)];
    assert forms[..0] == [];
    assert Candidates(forms, items) == [Candidate(Form([e]), e)];
    IntendedRulesSkipHiddenAndPassword(Form([e]));
    FindUsernameTiers(IntendedRules, Form([e]));
    assert FindUsernameBy(IntendedRules, Form([e])) == QueryItem("", "");
  }
}
