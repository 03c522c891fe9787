/** completePage: filling the page's inputs from previously saved form data.
    For every saved pair in order, every input of a completable type whose
    name is the pair's key gets the pair's value as its `value` attribute. */
module Completion {
  import opened QueryItems
  import opened Document

  /** The input types that are completed; an input without a type is too. */
  const InputTypes: seq<string> := ["text", "password", "email"]

  /** completePage writes to an input of this type. */
  predicate Fillable(inputType: string) {
    inputType in InputTypes || inputType == []
  }

  /** The `value` attribute an input of the given type and name ends up with,
      starting from `v`, once `items` have been applied in order. */
  function Fill(items: seq<QueryItem>, inputType: string, name: string, v: string): string {
    if items == [] then v
    else
      var last := items[|items| - 1];
      if Fillable(inputType) && last.key == name then last.value
      else Fill(items[..|items| - 1], inputType, name, v)
  }

  /** Applying one more item. */
  lemma FillStep(items: seq<QueryItem>, i: nat, inputType: string, name: string, v: string)
    requires i < |items|
    ensures Fill(items[..i + 1], inputType, name, v)
      == if Fillable(inputType) && items[i].key == name then items[i].value
         else Fill(items[..i], inputType, name, v)
  {
    assert items[..i + 1][..i] == items[..i];
  }

  /** The value of the last item keyed `name` wins. */
  lemma {:induction false} FillLastWins(items: seq<QueryItem>, inputType: string, name: string, v: string, i: nat)
    requires Fillable(inputType)
    requires i < |items| && items[i].key == name
    requires forall j :: i < j < |items| ==> items[j].key != name
    ensures Fill(items, inputType, name, v) == items[i].value
    decreases |items|
  {
    if i < |items| - 1 {
      FillLastWins(items[..|items| - 1], inputType, name, v, i);
    }
  }

  /** An input of another type, or whose name is no key, keeps its value. */
  lemma {:induction false} FillUntouched(items: seq<QueryItem>, inputType: string, name: string, v: string)
    requires !Fillable(inputType) || forall j :: 0 <= j < |items| ==> items[j].key != name
    ensures Fill(items, inputType, name, v) == v
    decreases |items|
  {
    if items != [] {
      FillUntouched(items[..|items| - 1], inputType, name, v);
    }
  }

  /** Completing an already completed input changes nothing. */
  lemma {:induction false} FillIdempotent(items: seq<QueryItem>, inputType: string, name: string, v: string)
    ensures Fill(items, inputType, name, Fill(items, inputType, name, v)) == Fill(items, inputType, name, v)
    decreases |items|
  {
    if items != [] {
      var last := items[|items| - 1];
      if !(Fillable(inputType) && last.key == name) {
        var rest := items[..|items| - 1];
        if exists j :: 0 <= j < |rest| && rest[j].key == name && Fillable(inputType) {
          var j :| 0 <= j < |rest| && rest[j].key == name && Fillable(inputType);
          var i := LastKey(rest, name, j);
          FillLastWins(rest, inputType, name, Fill(items, inputType, name, v), i);
          FillLastWins(rest, inputType, name, v, i);
        } else {
          FillUntouched(rest, inputType, name, Fill(items, inputType, name, v));
          FillUntouched(rest, inputType, name, v);
        }
      }
    }
  }

  /** The position of the last item keyed `name`, given that one exists at `j`. */
  lemma {:induction false} LastKey(items: seq<QueryItem>, name: string, j: nat) returns (i: nat)
    requires j < |items| && items[j].key == name
    ensures j <= i < |items| && items[i].key == name
    ensures forall k :: i < k < |items| ==> items[k].key != name
    decreases |items| - j
  {
    if forall k :: j < k < |items| ==> items[k].key != name {
      i := j;
    } else {
      var k :| j < k < |items| && items[k].key == name;
      i := LastKey(items, name, k);
    }
  }

  /** completePage: the saved body is decoded into pairs (`decode` stands for
      QUrlQuery) and applied to every input of the page, in order. The
      precondition only says that the page's inputs exist when it starts. */
  method CompletePage(data: string, page: Frame, decode: string -> seq<QueryItem>)
    requires forall e :: e in AllInputs(page) ==> allocated(e)
    modifies AllInputs(page)
    ensures forall e :: e in AllInputs(page) ==>
      e.value == Fill(PlusPass(decode(data)), e.inputType, e.name, old(e.value))
  {
    var queryItems := CreateQueryItems(data, decode);
    var inputs := GetAllElementsFromPage(page, InputsOf);
    for i := 0 to |queryItems|
      invariant forall e :: e in inputs ==> e.value == Fill(queryItems[..i], e.inputType, e.name, old(e.value))
    {
      ApplyItem(inputs, queryItems[i].key, queryItems[i].value);
      forall e | e in inputs
        ensures e.value == Fill(queryItems[..i + 1], e.inputType, e.name, old(e.value))
      {
        FillStep(queryItems, i, e.inputType, e.name, old(e.value));
      }
    }
    assert queryItems[..|queryItems|] == queryItems;
  }

  /** The inner loop of completePage for one pair: every input of a completable
      type named `key` gets `value`; every other input keeps its value. */
  method ApplyItem(inputs: seq<InputElement>, key: string, value: string)
    modifies inputs
    ensures forall e :: e in inputs ==>
      e.value == if Fillable(e.inputType) && e.name == key then value else old(e.value)
  {
    ghost var done: set<InputElement> := {};
    for i := 0 to |inputs|
      invariant forall k :: 0 <= k < i ==> inputs[k] in done
      invariant forall e :: e in inputs ==>
        e.value == if e in done && Fillable(e.inputType) && e.name == key then value else old(e.value)
    {
      var element := inputs[i];
      done := done + {element};
      var typeAttr := element.inputType;
      if !(typeAttr in InputTypes) && typeAttr != [] {
        continue;
      }
      if key == element.name {
        element.value := value;
      }
    }
  }
}
