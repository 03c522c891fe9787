/** Character-sequence helpers standing in for the QByteArray / QString calls
    the form completer makes: substring search, `trimmed()`, `remove(c)` and
    `replace(c, d)`. Strings are plain `seq<char>`. */
module Text {

  /** `pat` occurs in `s` starting at index `i`. */
  predicate OccursAt(s: string, pat: string, i: int) {
    0 <= i && i + |pat| <= |s| && s[i..i + |pat|] == pat
  }

  /** Index of the first occurrence of `pat` in `s` at or after `from`, or -1
      when there is none (QByteArray::indexOf / QString::indexOf). */
  function IndexOf(s: string, pat: string, from: nat): (r: int)
    requires from <= |s|
    ensures r == -1 || (from <= r && OccursAt(s, pat, r))
    ensures forall j {:trigger OccursAt(s, pat, j)} ::
      from <= j && (r == -1 || j < r) ==> !OccursAt(s, pat, j)
    decreases |s| - from
  {
    if OccursAt(s, pat, from) then from
    else if from == |s| then -1
    else IndexOf(s, pat, from + 1)
  }

  /** `s` contains `pat` somewhere (QByteArray::contains). */
  function Contains(s: string, pat: string): (b: bool)
    ensures b <==> exists j :: OccursAt(s, pat, j)
  {
    IndexOf(s, pat, 0) >= 0
  }

  /** A one-character pattern occurs exactly where that character is. */
  lemma OccursAtChar(s: string, c: char, j: int)
    requires 0 <= j < |s|
    ensures OccursAt(s, [c], j) <==> s[j] == c
  {
    assert s[j..j + 1] == [s[j]];
  }

  /** Searching for one character: the index found holds it, and no earlier
      index does; -1 means the character does not occur. */
  lemma IndexOfChar(s: string, c: char)
    ensures IndexOf(s, [c], 0) == -1 <==> c !in s
    ensures IndexOf(s, [c], 0) >= 0 ==> s[IndexOf(s, [c], 0)] == c && c !in s[..IndexOf(s, [c], 0)]
  {
    var k := IndexOf(s, [c], 0);
    forall j | 0 <= j < |s| ensures OccursAt(s, [c], j) <==> s[j] == c {
      OccursAtChar(s, c, j);
    }
    if k >= 0 {
      assert forall j :: 0 <= j < k ==> s[..k][j] == s[j];
    }
  }

  /** The search for one character finds its first occurrence. */
  lemma IndexOfFirstChar(s: string, c: char, k: nat)
    requires k < |s| && s[k] == c && c !in s[..k]
    ensures IndexOf(s, [c], 0) == k
  {
    IndexOfChar(s, c);
    var i := IndexOf(s, [c], 0);
    assert forall j :: 0 <= j < k ==> s[..k][j] == s[j];
    assert forall j :: 0 <= j < i ==> s[..i][j] == s[j];
  }

  /** The ASCII characters QString::trimmed() treats as white space. */
  predicate IsSpace(c: char) {
    c == ' ' || c == '\t' || c == '\n' || c == '\U{B}' || c == '\U{C}' || c == '\r'
  }

  /** First index at or after `i` that does not hold white space. */
  function SkipSpaces(s: string, i: nat): (k: nat)
    requires i <= |s|
    ensures i <= k <= |s|
    ensures k == |s| || !IsSpace(s[k])
    ensures forall j :: i <= j < k ==> IsSpace(s[j])
    decreases |s| - i
  {
    if i == |s| || !IsSpace(s[i]) then i else SkipSpaces(s, i + 1)
  }

  /** Largest end index at or before `j` whose preceding character is not white space. */
  function SkipSpacesBack(s: string, j: nat): (k: nat)
    requires j <= |s|
    ensures k <= j
    ensures k == 0 || !IsSpace(s[k - 1])
    ensures forall m :: k <= m < j ==> IsSpace(s[m])
  {
    if j == 0 || !IsSpace(s[j - 1]) then j else SkipSpacesBack(s, j - 1)
  }

  /** `s[a..b]` is what is left of `s` once its leading and trailing white
      space are cut off: everything outside is white space and, unless the
      slice is empty, its first and last characters are not. */
  predicate TrimBounds(s: string, a: int, b: int) {
    0 <= a <= b <= |s|
    && (forall j :: 0 <= j < a ==> IsSpace(s[j]))
    && (forall j :: b <= j < |s| ==> IsSpace(s[j]))
    && (a < b ==> !IsSpace(s[a]) && !IsSpace(s[b - 1]))
  }

  /** QString::trimmed(): `s` without leading and trailing white space. */
  function Trim(s: string): (r: string)
    ensures r == [] <==> forall j :: 0 <= j < |s| ==> IsSpace(s[j])
    ensures r != [] ==> !IsSpace(r[0]) && !IsSpace(r[|r| - 1])
    ensures exists a, b :: TrimBounds(s, a, b) && r == s[a..b]
  {
    var a := SkipSpaces(s, 0);
    var b := SkipSpacesBack(s, |s|);
    if b <= a then
      assert s[a..a] == [];
      assert forall j :: 0 <= j < |s| ==> IsSpace(s[j]);
      assert TrimBounds(s, 0, 0) && s[0..0] == [];
      []
    else
      assert TrimBounds(s, a, b);
      s[a..b]
  }

  /** QString::remove(c): every occurrence of `c` dropped, order kept. */
  function RemoveAll(s: string, c: char): (r: string)
    ensures c !in r
    ensures s != [] && s[0] != c ==> r != [] && r[0] == s[0]
    ensures s != [] && s[|s| - 1] != c ==> r != [] && r[|r| - 1] == s[|s| - 1]
  {
    if s == [] then []
    else if s[0] == c then RemoveAll(s[1..], c)
    else [s[0]] + RemoveAll(s[1..], c)
  }

  /** Removing from one character: it goes exactly when it is `c`. */
  lemma RemoveAllOne(x: char, c: char)
    ensures RemoveAll([x], c) == if x == c then [] else [x]
  {
    assert [x][1..] == [];
  }

  /** Removal works piece by piece, so every other character is kept, in
      order; with RemoveAllOne and the empty case this fixes the result. */
  lemma {:induction false} RemoveAllAppend(a: string, b: string, c: char)
    ensures RemoveAll(a + b, c) == RemoveAll(a, c) + RemoveAll(b, c)
    decreases |a|
  {
    if a == [] {
      assert a + b == b;
    } else {
      assert (a + b)[0] == a[0];
      assert (a + b)[1..] == a[1..] + b;
      RemoveAllAppend(a[1..], b, c);
    }
  }

  /** QString::replace('+', ' '): every `+` becomes a space, nothing else moves. */
  function PlusToSpace(s: string): (r: string)
    ensures |r| == |s|
    ensures forall j :: 0 <= j < |s| ==> r[j] == if s[j] == '+' then ' ' else s[j]
    ensures '+' !in r
  {
    if s == [] then [] else [if s[0] == '+' then ' ' else s[0]] + PlusToSpace(s[1..])
  }
}
