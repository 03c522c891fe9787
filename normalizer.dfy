/** convertWebKitFormBoundaryIfNecessary: rewriting a multipart
    (`------WebKitFormBoundary…`) POST body into `name=value&…`.

    The source drives the rewrite with the minimal regular expression
    `name="(.*)------WebKitFormBoundary`. The model replaces the regular
    expression engine by two substring searches (`FindMatch`) and proves that
    they find exactly the leftmost, shortest match (`IsLeftmostMinimal`). */
module Normalizer {
  import opened Text

  /** The marker whose presence switches the rewrite on. */
  const Boundary: string := "------WebKitFormBoundary"
  /** The literal text that opens every captured group. */
  const NameQuote: string := "name=\""

  /** Where the pattern matched: `start` is the index of `name="`, `end` the
      index of the boundary that closes the (minimal) capture. */
  datatype MatchResult = NoMatch | Match(start: nat, end: nat)

  /** One `name=value` pair recovered from a multipart part. */
  datatype Field = Field(name: string, value: string)

  /** The pattern `<opening>(.*)<closing>` matches `data` starting at `p`
      with its closing text at `q`. */
  ghost predicate IsMatchAt(data: string, opening: string, closing: string, p: int, q: int) {
    OccursAt(data, opening, p) && p + |opening| <= q && OccursAt(data, closing, q)
  }

  /** What a leftmost, minimal (non-greedy) match found at or after `pos` is:
      no match starts earlier, and no closing text ends the capture sooner. */
  ghost predicate IsLeftmostMinimal(data: string, opening: string, closing: string, pos: int, p: int, q: int) {
    pos <= p && IsMatchAt(data, opening, closing, p, q)
    && (forall p', q' :: pos <= p' < p ==> !IsMatchAt(data, opening, closing, p', q'))
    && (forall q' :: p + |opening| <= q' < q ==> !OccursAt(data, closing, q'))
  }

  /** QRegExp::indexIn with minimal matching, from offset `pos`, of the
      pattern `<opening>(.*)<closing>` (`.` matches every character). */
  function FindMatch(data: string, opening: string, closing: string, pos: nat): (m: MatchResult)
    requires pos <= |data|
    ensures m.Match? ==> m.end + |closing| <= |data|
  {
    var p := IndexOf(data, opening, pos);
    if p < 0 then NoMatch
    else
      var q := IndexOf(data, closing, p + |opening|);
      if q < 0 then NoMatch else Match(p, q)
  }

  /** The two searches find exactly the leftmost match, with the shortest
      capture, and report no match only when there is none. */
  lemma FindMatchSpec(data: string, opening: string, closing: string, pos: nat)
    requires pos <= |data|
    ensures FindMatch(data, opening, closing, pos).Match? ==>
      IsLeftmostMinimal(data, opening, closing, pos,
        FindMatch(data, opening, closing, pos).start, FindMatch(data, opening, closing, pos).end)
    ensures FindMatch(data, opening, closing, pos).NoMatch? ==>
      forall p, q :: pos <= p ==> !IsMatchAt(data, opening, closing, p, q)
  {
    var p := IndexOf(data, opening, pos);
    if p >= 0 && IndexOf(data, closing, p + |opening|) < 0 {
      assert forall p', q' :: pos <= p' && IsMatchAt(data, opening, closing, p', q') ==>
        OccursAt(data, closing, q') && p + |opening| <= q';
    }
  }

  /** The shape every emitted pair has: a non-empty name free of `"`, and a
      non-empty value free of newlines that neither starts nor ends with white space. */
  predicate WellFormedField(f: Field) {
    f.name != [] && '"' !in f.name
    && f.value != [] && '\n' !in f.value
    && !IsSpace(f.value[0]) && !IsSpace(f.value[|f.value| - 1])
  }

  /** `trimmed().remove('\n')`: the value with surrounding white space and
      every newline removed; what is left neither starts nor ends with white space. */
  function CleanValue(raw: string): (v: string)
    ensures '\n' !in v
    ensures v != [] ==> !IsSpace(v[0]) && !IsSpace(v[|v| - 1])
  {
    var t := Trim(raw);
    assert t != [] ==> t[0] != '\n' && t[|t| - 1] != '\n';
    RemoveAll(t, '\n')
  }

  /** The cleaned value is the raw text with its leading and trailing white
      space cut off and then every newline removed. */
  lemma CleanValueContent(raw: string)
    ensures exists a, b :: TrimBounds(raw, a, b) && CleanValue(raw) == RemoveAll(raw[a..b], '\n')
  {
    var t := Trim(raw);
    assert exists a, b :: TrimBounds(raw, a, b) && t == raw[a..b];
    var a, b :| TrimBounds(raw, a, b) && t == raw[a..b];
  }

  /** What one captured group contributes: nothing when it has no closing
      quote or when the name or the cleaned value is empty. */
  function ParseCapture(capture: string): seq<Field> {
    var k := IndexOf(capture, "\"", 0);
    if k < 0 then []
    else
      var name := capture[..k];
      var value := CleanValue(capture[k + 1..]);
      if name == [] || value == [] then [] else [Field(name, value)]
  }

  /** A capture contributes at most one pair, and that pair is well formed. */
  lemma ParseCaptureWellFormed(capture: string)
    ensures |ParseCapture(capture)| <= 1
    ensures forall i :: 0 <= i < |ParseCapture(capture)| ==> WellFormedField(ParseCapture(capture)[i])
  {
    IndexOfChar(capture, '"');
  }

  /** A capture without any `"` contributes nothing. */
  lemma CaptureWithoutQuote(capture: string)
    requires '"' !in capture
    ensures ParseCapture(capture) == []
  {
    IndexOfChar(capture, '"');
  }

  /** With its first `"` at `k`, a capture contributes the pair (text before
      `k`, cleaned text after `k`) when both are non-empty... */
  lemma CaptureAtFirstQuote(capture: string, k: nat)
    requires k < |capture| && capture[k] == '"' && '"' !in capture[..k]
    ensures k > 0 && CleanValue(capture[k + 1..]) != [] ==>
      ParseCapture(capture) == [Field(capture[..k], CleanValue(capture[k + 1..]))]
  {
    IndexOfFirstChar(capture, '"', k);
  }

  /** ...and nothing when either is empty. */
  lemma CaptureAtFirstQuoteEmpty(capture: string, k: nat)
    requires k < |capture| && capture[k] == '"' && '"' !in capture[..k]
    ensures k == 0 || CleanValue(capture[k + 1..]) == [] ==> ParseCapture(capture) == []
  {
    IndexOfFirstChar(capture, '"', k);
  }

  /** The pairs found by scanning `data` from `pos`, in discovery order. */
  function FieldsFrom(data: string, opening: string, closing: string, pos: nat): seq<Field>
    requires pos <= |data| && |closing| > 0
    decreases |data| - pos
  {
    match FindMatch(data, opening, closing, pos)
    case NoMatch => []
    case Match(p, q) =>
      ParseCapture(data[p + |opening|..q]) + FieldsFrom(data, opening, closing, q + |closing|)
  }

  /** Every pair the scan emits is well formed. */
  lemma {:induction false} FieldsFromWellFormed(data: string, opening: string, closing: string, pos: nat)
    requires pos <= |data| && |closing| > 0
    ensures forall i :: 0 <= i < |FieldsFrom(data, opening, closing, pos)| ==>
      WellFormedField(FieldsFrom(data, opening, closing, pos)[i])
    decreases |data| - pos
  {
    if FindMatch(data, opening, closing, pos).Match? {
      ParseCaptureWellFormed(data[FindMatch(data, opening, closing, pos).start + |opening|..FindMatch(data, opening, closing, pos).end]);
      FieldsFromWellFormed(data, opening, closing, FindMatch(data, opening, closing, pos).end + |closing|);
    }
  }

  /** The `name=value&` rendering of a list of pairs. */
  function Format(fs: seq<Field>): string {
    if fs == [] then [] else fs[0].name + "=" + fs[0].value + "&" + Format(fs[1..])
  }

  /** What convertWebKitFormBoundaryIfNecessary returns. */
  function Normalize(data: string): string {
    if !Contains(data, Boundary) then data else Format(FieldsFrom(data, NameQuote, Boundary, 0))
  }

  lemma {:induction false} FormatAppend(a: seq<Field>, b: seq<Field>)
    ensures Format(a + b) == Format(a) + Format(b)
    decreases |a|
  {
    if a == [] {
      assert a + b == b;
    } else {
      assert (a + b)[1..] == a[1..] + b;
      FormatAppend(a[1..], b);
    }
  }

  /** The rendering of one capture, spelled out the way the loop builds it. */
  lemma CaptureRendering(capture: string)
    ensures var k := IndexOf(capture, "\"", 0);
      Format(ParseCapture(capture))
      == if k < 0 then []
         else
           var name := capture[..k];
           var value := CleanValue(capture[k + 1..]);
           if name == [] || value == [] then [] else name + "=" + value + "&"
  {
    var k := IndexOf(capture, "\"", 0);
    if k >= 0 {
      var name := capture[..k];
      var value := CleanValue(capture[k + 1..]);
      if name != [] && value != [] {
        SingleFormat(Field(name, value));
      }
    }
  }

  lemma AppendAssoc(a: string, b: string, c: string)
    ensures a + b + c == a + (b + c)
  {
  }

  lemma SingleFormat(f: Field)
    ensures Format([f]) == f.name + "=" + f.value + "&"
  {
    assert [f][1..] == [];
  }

  /** One step of the scan: what was emitted before `pos`, then the
      rendering of the capture found there, then everything after its
      closing text (at `next`), is the whole rendering. */
  lemma ScanStep(data: string, opening: string, closing: string, pos: nat, next: nat, capture: string, done: string)
    requires pos <= |data| && |closing| > 0
    requires FindMatch(data, opening, closing, pos).Match?
    requires capture == data[FindMatch(data, opening, closing, pos).start + |opening|..FindMatch(data, opening, closing, pos).end]
    requires next == FindMatch(data, opening, closing, pos).end + |closing|
    requires done + Format(FieldsFrom(data, opening, closing, pos)) == Format(FieldsFrom(data, opening, closing, 0))
    ensures pos < next <= |data|
    ensures done + Format(ParseCapture(capture)) + Format(FieldsFrom(data, opening, closing, next))
      == Format(FieldsFrom(data, opening, closing, 0))
  {
    var rest := FieldsFrom(data, opening, closing, next);
    assert FieldsFrom(data, opening, closing, pos) == ParseCapture(capture) + rest;
    FormatAppend(ParseCapture(capture), rest);
    AppendAssoc(done, Format(ParseCapture(capture)), Format(rest));
  }

  /** The text one captured group adds to the output: `name=value&`, where
      the name runs up to the first `"` and the value is the rest, trimmed and
      stripped of newlines; nothing when either is empty or there is no `"`. */
  method RenderCapture(capture: string) returns (piece: string)
    ensures piece == Format(ParseCapture(capture))
  {
    CaptureRendering(capture);
    piece := "";
    var endOfName := IndexOf(capture, "\"", 0);
    if endOfName != -1 {
      var name := capture[..endOfName];
      var value := CleanValue(capture[endOfName + 1..]);
      if name != [] && value != [] {
        piece := name + "=" + value + "&";
      }
    }
  }

  /** The rewrite loop for the pattern `<opening>(.*)<closing>`: every
      capture is turned into `name=value&` and appended. */
  method RewriteCaptures(data: string, opening: string, closing: string) returns (r: string)
    requires |closing| > 0
    ensures r == Format(FieldsFrom(data, opening, closing, 0))
  {
    var formatted := "";
    var pos: nat := 0;
    var m := FindMatch(data, opening, closing, pos);
    while m.Match?
      invariant pos <= |data|
      invariant m == FindMatch(data, opening, closing, pos)
      invariant formatted + Format(FieldsFrom(data, opening, closing, pos)) == Format(FieldsFrom(data, opening, closing, 0))
      decreases |data| - pos
    {
      var capture := data[m.start + |opening|..m.end];
      var next: nat := m.end + |closing|;
      ScanStep(data, opening, closing, pos, next, capture, formatted);
      pos := next;
      var piece := RenderCapture(capture);
      formatted := formatted + piece;
      m := FindMatch(data, opening, closing, pos);
    }
    r := formatted;
  }

  /** The multipart body rewritten into `name=value&` pairs; any other body
      is returned as it is. */
  method ConvertWebKitFormBoundaryIfNecessary(data: string) returns (r: string)
    ensures r == Normalize(data)
  {
    if !Contains(data, Boundary) {
      return data;
    }
    r := RewriteCaptures(data, NameQuote, Boundary);
  }

  /** A body without the boundary marker passes through untouched. */
  lemma NormalizeWithoutMarker(data: string)
    requires forall j :: !OccursAt(data, Boundary, j)
    ensures Normalize(data) == data
  {
  }

  /** With the marker present, the output is the `name=value&` rendering of
      well-formed pairs only. */
  lemma NormalizeWithMarker(data: string)
    requires Contains(data, Boundary)
    ensures Normalize(data) == Format(FieldsFrom(data, NameQuote, Boundary, 0))
    ensures forall i :: 0 <= i < |FieldsFrom(data, NameQuote, Boundary, 0)| ==> WellFormedField(FieldsFrom(data, NameQuote, Boundary, 0)[i])
  {
    FieldsFromWellFormed(data, NameQuote, Boundary, 0);
  }

  // ---------------------------------------------------------------------
  // Reading the rendering back

  /** Index of the first `c` in `s`, or |s|. */
  function FirstIndex(s: string, c: char): (k: nat)
    ensures k <= |s|
    ensures k < |s| ==> s[k] == c
    ensures forall j :: 0 <= j < k ==> s[j] != c
  {
    if s == [] || s[0] == c then 0 else 1 + FirstIndex(s[1..], c)
  }

  /** Splits a query string at every `&` and each piece at its first `=`. */
  function ParseFields(s: string): seq<Field>
    decreases |s|
  {
    if s == [] then []
    else
      var k := FirstIndex(s, '&');
      var piece := s[..k];
      var e := FirstIndex(piece, '=');
      [Field(piece[..e], if e < |piece| then piece[e + 1..] else [])]
        + (if k < |s| then ParseFields(s[k + 1..]) else [])
  }

  lemma {:induction false} FirstIndexAt(a: string, c: char, b: string)
    requires c !in a
    ensures FirstIndex(a + [c] + b, c) == |a|
  {
    var s := a + [c] + b;
    var k := FirstIndex(s, c);
    assert s[|a|] == c;
    assert forall j :: 0 <= j < |a| ==> s[j] == a[j];
  }

  /** The rendering reads back into the same pairs, provided no name holds
      `&` or `=` and no value holds `&` (nothing in the rewrite escapes them). */
  lemma {:induction false} FormatParsesBack(fs: seq<Field>)
    requires forall f :: f in fs ==> '&' !in f.name && '=' !in f.name && '&' !in f.value
    ensures ParseFields(Format(fs)) == fs
    decreases |fs|
  {
    if fs != [] {
      var n, v := fs[0].name, fs[0].value;
      var piece := n + "=" + v;
      var rest := Format(fs[1..]);
      var s := Format(fs);
      assert s == piece + "&" + rest;
      assert '&' !in piece;
      FirstIndexAt(piece, '&', rest);
      assert s[..|piece|] == piece;
      assert s[|piece| + 1..] == rest;
      FirstIndexAt(n, '=', v);
      assert n + "=" + v == n + ['='] + v;
      assert piece[..|n|] == n;
      assert piece[|n| + 1..] == v;
      FormatParsesBack(fs[1..]);
      assert fs == [fs[0]] + fs[1..];
    }
  }
}
