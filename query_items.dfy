/** The decoded `key=value` pairs of a form submission, and the two things the
    form completer does with them: the `+`-to-space pass of createQueryItems
    and the first-key-wins lookup of queryItemsContains. */
module QueryItems {
  import opened Text

  /** One decoded pair (QPair<QString, QString>). */
  datatype QueryItem = QueryItem(key: string, value: string)

  // ---------------------------------------------------------------------
  // queryItemsContains

  /** `i` is the position of the first item whose key is `name`. */
  predicate FirstKeyAt(items: seq<QueryItem>, name: string, i: int) {
    0 <= i < |items| && items[i].key == name
    && forall j :: 0 <= j < i ==> items[j].key != name
  }

  /** The scan of queryItemsContains after its empty-argument guard: the
      answer is decided by the first item whose key is `name`. */
  function FirstKeyMatches(items: seq<QueryItem>, name: string, value: string): (b: bool)
    ensures b ==> QueryItem(name, value) in items
  {
    if items == [] then false
    else if items[0].key == name then items[0].value == value
    else FirstKeyMatches(items[1..], name, value)
  }

  /** queryItemsContains: false for an empty name or value; otherwise whether
      the first item keyed `name` carries `value`. */
  function QueryItemsContains(items: seq<QueryItem>, name: string, value: string): (b: bool)
    ensures name == [] || value == [] ==> !b
    ensures b ==> QueryItem(name, value) in items
  {
    if name == [] || value == [] then false else FirstKeyMatches(items, name, value)
  }

  /** The scan answers exactly for the first item keyed `name`, and is false
      when no key matches. */
  lemma {:induction false} FirstKeyMatchesSpec(items: seq<QueryItem>, name: string, value: string)
    ensures FirstKeyMatches(items, name, value)
      <==> exists i :: FirstKeyAt(items, name, i) && items[i].value == value
    ensures (forall j :: 0 <= j < |items| ==> items[j].key != name) ==> !FirstKeyMatches(items, name, value)
  {
    if items == [] {
    } else if items[0].key == name {
      assert FirstKeyAt(items, name, 0);
      forall i | FirstKeyAt(items, name, i) ensures i == 0 {
      }
    } else {
      FirstKeyMatchesSpec(items[1..], name, value);
      forall i | FirstKeyAt(items[1..], name, i) ensures FirstKeyAt(items, name, i + 1) {
      }
      forall i | FirstKeyAt(items, name, i) ensures FirstKeyAt(items[1..], name, i - 1) {
      }
    }
  }

  /** queryItemsContains, stated without the scan. */
  lemma QueryItemsContainsSpec(items: seq<QueryItem>, name: string, value: string)
    ensures QueryItemsContains(items, name, value)
      <==> name != [] && value != [] && exists i :: FirstKeyAt(items, name, i) && items[i].value == value
  {
    FirstKeyMatchesSpec(items, name, value);
  }

  /** Items after the first one keyed `name` are never consulted. */
  lemma LaterItemsIgnored(items: seq<QueryItem>, extra: seq<QueryItem>, name: string, value: string, i: nat)
    requires i < |items| && items[i].key == name
    ensures QueryItemsContains(items + extra, name, value) == QueryItemsContains(items, name, value)
  {
    FirstKeyExists(items, name, i);
    var j :| FirstKeyAt(items, name, j);
    assert FirstKeyAt(items + extra, name, j);
    FirstKeyMatchesSpec(items, name, value);
    FirstKeyMatchesSpec(items + extra, name, value);
    forall k | FirstKeyAt(items + extra, name, k) ensures k == j {
    }
  }

  /** A key that occurs has a first occurrence. */
  lemma {:induction false} FirstKeyExists(items: seq<QueryItem>, name: string, i: nat)
    requires i < |items| && items[i].key == name
    ensures exists j :: FirstKeyAt(items, name, j)
    decreases i
  {
    if forall j :: 0 <= j < i ==> items[j].key != name {
      assert FirstKeyAt(items, name, i);
    } else {
      var j :| 0 <= j < i && items[j].key == name;
      FirstKeyExists(items, name, j);
    }
  }

  /** A pair present among the items is still rejected when the first item
      with that key carries another value. */
  lemma ShadowedPairRejected(items: seq<QueryItem>, name: string, value: string, i: nat)
    requires FirstKeyAt(items, name, i) && items[i].value != value
    requires QueryItem(name, value) in items
    ensures !QueryItemsContains(items, name, value)
  {
    FirstKeyMatchesSpec(items, name, value);
    forall j | FirstKeyAt(items, name, j) ensures j == i {
    }
  }

  // ---------------------------------------------------------------------
  // createQueryItems, Qt 5 branch

  /** One item with every `+` in its key and value replaced by a space. */
  function Unplussed(item: QueryItem): (r: QueryItem)
    ensures '+' !in r.key && '+' !in r.value
    ensures |r.key| == |item.key| && |r.value| == |item.value|
  {
    QueryItem(PlusToSpace(item.key), PlusToSpace(item.value))
  }

  /** The items the post-pass leaves behind. */
  function PlusPass(items: seq<QueryItem>): seq<QueryItem> {
    seq(|items|, i requires 0 <= i < |items| => Unplussed(items[i]))
  }

  /** The post-pass keeps the number and order of the items, turns every `+`
      into a space and leaves every other character where it was. */
  lemma PlusPassShape(items: seq<QueryItem>)
    ensures |PlusPass(items)| == |items|
    ensures forall i :: 0 <= i < |items| ==> '+' !in PlusPass(items)[i].key && '+' !in PlusPass(items)[i].value
    ensures forall i, j :: 0 <= i < |items| && 0 <= j < |items[i].key| ==>
      |PlusPass(items)[i].key| == |items[i].key|
      && PlusPass(items)[i].key[j] == if items[i].key[j] == '+' then ' ' else items[i].key[j]
    ensures forall i, j :: 0 <= i < |items| && 0 <= j < |items[i].value| ==>
      |PlusPass(items)[i].value| == |items[i].value|
      && PlusPass(items)[i].value[j] == if items[i].value[j] == '+' then ' ' else items[i].value[j]
  {
  }

  lemma {:induction false} PlusToSpaceIdempotent(s: string)
    ensures PlusToSpace(PlusToSpace(s)) == PlusToSpace(s)
  {
    var t := PlusToSpace(s);
    assert forall j :: 0 <= j < |t| ==> t[j] != '+';
  }

  /** Running the post-pass again changes nothing. */
  lemma PlusPassIdempotent(items: seq<QueryItem>)
    ensures PlusPass(PlusPass(items)) == PlusPass(items)
  {
    forall i | 0 <= i < |items|
      ensures Unplussed(PlusPass(items)[i]) == PlusPass(items)[i]
    {
      PlusToSpaceIdempotent(items[i].key);
      PlusToSpaceIdempotent(items[i].value);
    }
  }

  /** createQueryItems: the decoder's pairs, each rewritten in place so that
      `+` reads as a space. `decode` stands for QUrlQuery's percent-decoding
      of `http://foo.com/?` followed by `data`. */
  method CreateQueryItems(data: string, decode: string -> seq<QueryItem>) returns (arguments: seq<QueryItem>)
    ensures arguments == PlusPass(decode(data))
  {
    arguments := decode(data);
    for i := 0 to |arguments|
      invariant |arguments| == |decode(data)|
      invariant forall j :: 0 <= j < i ==> arguments[j] == Unplussed(decode(data)[j])
      invariant forall j :: i <= j < |arguments| ==> arguments[j] == decode(data)[j]
    {
      arguments := arguments[i := arguments[i].(key := PlusToSpace(arguments[i].key))];
      arguments := arguments[i := arguments[i].(value := PlusToSpace(arguments[i].value))];
    }
  }
}
