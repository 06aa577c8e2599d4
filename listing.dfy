// Hand-written scanners for the two case-insensitive `re.findall` patterns that read the
// BLS directory listing. The anchor pattern is an `<a`, whitespace, `href="`, then a quoted
// value of which it captures the part after the last slash. The row pattern puts before
// the anchor a date `digits/digits/digits`, whitespace, a time `digits:digits`,
// whitespace, a word (captured together as the date text), whitespace, a size digit run
// (captured) and whitespace.
//
// Every repetition in these patterns sits between character classes that exclude what
// follows it, so a match attempt at a given position is deterministic; `findall` tries
// the positions left to right and resumes after each match.
module Listing {
  import opened Wrappers
  import opened Text

  /** A file name as the href capture yields it: non-empty, no `/` and no `"`. */
  predicate IsFileName(n: string) {
    n != [] && '/' !in n && '"' !in n
  }

  /** The character classes the patterns repeat: `\s`, `\d`, `\w` and `[^"]`. */
  datatype CharClass = Space | Digit | Word | NotQuote

  predicate InClass(c: char, cls: CharClass) {
    match cls
    case Space => IsSpace(c)
    case Digit => IsDigit(c)
    case Word => IsWordChar(c)
    case NotQuote => IsNotQuote(c)
  }

  /** End of the longest run of characters satisfying `p` that starts at `i` (a greedy `p*`). */
  function RunEnd(s: string, i: nat, p: CharClass): (j: nat)
    requires i <= |s|
    ensures i <= j <= |s|
    ensures forall k :: i <= k < j ==> InClass(s[k], p)
    ensures j == |s| || !InClass(s[j], p)
    decreases |s| - i
  {
    if i < |s| && InClass(s[i], p) then RunEnd(s, i + 1, p) else i
  }

  /** A greedy `p+` at the cursor `at` (None when an earlier part of the pattern failed). */
  function Run1(s: string, at: Option<nat>, p: CharClass): (r: Option<nat>)
    requires at.Some? ==> at.value <= |s|
    ensures r.Some? ==> at.Some? && at.value < r.value <= |s|
    ensures r.Some? ==> forall k :: at.value <= k < r.value ==> InClass(s[k], p)
  {
    if at.None? then None
    else
      var j := RunEnd(s, at.value, p);
      if j > at.value then Some(j) else None
  }

  /** The text at `at` is `lit` (written in lower case) up to the case of ASCII letters. */
  predicate FoldsTo(s: string, at: nat, lit: string) {
    at + |lit| <= |s| && forall k :: 0 <= k < |lit| ==> ToLower(s[at + k]) == lit[k]
  }

  /** The literal `lit` at the cursor, ignoring the case of ASCII letters. */
  function Lit(s: string, at: Option<nat>, lit: string): (r: Option<nat>)
    requires at.Some? ==> at.value <= |s|
    ensures r.Some? <==> at.Some? && FoldsTo(s, at.value, lit)
    ensures r.Some? ==> r.value == at.value + |lit|
  {
    if at.Some? && FoldsTo(s, at.value, lit) then Some(at.value + |lit|) else None
  }

  /** The characters after the last `/` of `v` (all of `v` when it has none). */
  function LastSegment(v: string): (seg: string)
    ensures '/' !in seg && |seg| <= |v|
    ensures seg == [] <==> (v == [] || v[|v| - 1] == '/')
  {
    if v == [] || v[|v| - 1] == '/' then []
    else LastSegment(v[..|v| - 1]) + [v[|v| - 1]]
  }

  /** The segment is the tail of `v`, and it follows a `/` when it is not all of `v`. */
  lemma {:induction false} LastSegmentTail(v: string)
    ensures var seg := LastSegment(v);
      && v[|v| - |seg|..] == seg
      && (|seg| < |v| ==> v[|v| - |seg| - 1] == '/')
  {
    if v != [] && v[|v| - 1] != '/' {
      var init := v[..|v| - 1];
      LastSegmentTail(init);
      var seg := LastSegment(init);
      assert init[|init| - |seg|..] + [v[|v| - 1]] == v[|v| - |seg| - 1..];
    }
  }

  // The capture of the href value part of the patterns, on a quoted value `v` (the text
  // between `href="` and the next `"`): it exists exactly when `v` holds a `/` and does not
  // end with one, and it is the segment after the last `/`.
  function HrefName(v: string): (r: Option<string>)
    ensures r.Some? <==> '/' in v && v[|v| - 1] != '/'
    ensures r.Some? ==> r.value != [] && '/' !in r.value
  {
    var seg := LastSegment(v);
    if '/' in v && seg != [] then Some(seg) else None
  }

  /** The value is the text before the captured segment, a `/`, and the segment. */
  lemma HrefNameSplit(v: string)
    requires HrefName(v).Some?
    ensures var name := HrefName(v).value;
      |name| < |v| && v == v[..|v| - |name| - 1] + "/" + name
  {
    var seg := LastSegment(v);
    LastSegmentTail(v);
    assert seg != v;
    assert v == v[..|v| - |seg| - 1] + [v[|v| - |seg| - 1]] + v[|v| - |seg|..];
  }

  /** `RunEnd` is the end of the run: a run of `p` from `i` to `j` that stops at `j` ends there. */
  lemma {:induction false} RunEndAt(s: string, i: nat, j: nat, p: CharClass)
    requires i <= j <= |s|
    requires forall k :: i <= k < j ==> InClass(s[k], p)
    requires j == |s| || !InClass(s[j], p)
    ensures RunEnd(s, i, p) == j
    decreases j - i
  {
    if i < j {
      RunEndAt(s, i + 1, j, p);
    }
  }

  /** The front of the anchor pattern at `i`, in any case: `<a`, whitespace up to `h`, and
      `href="` from `h`. */
  predicate AnchorFront(s: string, i: nat, h: nat) {
    && i + 2 < h && h + 6 <= |s|
    && FoldsTo(s, i, "<a")
    && (forall k :: i + 2 <= k < h ==> IsSpace(s[k]))
    && FoldsTo(s, h, "href=\"")
  }

  /** The back of the anchor pattern: a quoted value `s[a..q]` free of `"`, the closing `"`
      at `q`, and `name` the capture of that value. */
  predicate QuotedCapture(s: string, a: nat, q: nat, name: string) {
    && a <= q < |s|
    && (forall k :: a <= k < q ==> IsNotQuote(s[k]))
    && s[q] == '"'
    && HrefName(s[a..q]) == Some(name)
  }

  /** An anchor match at `i` capturing `name`, with `href="` at `h` and the closing quote at `q`. */
  predicate AnchorMatch(s: string, i: nat, h: nat, q: nat, name: string) {
    AnchorFront(s, i, h) && QuotedCapture(s, h + 6, q, name)
  }

  /** The front of the anchor pattern at `i`: `<a`, whitespace and `href="`, each letter in
      any case; the position where `href="` starts. */
  function HrefStart(s: string, i: nat): (h: Option<nat>)
    requires i <= |s|
    ensures h.Some? ==> AnchorFront(s, i, h.value)
  {
    var h := Run1(s, Lit(s, Some(i), "<a"), Space);
    if h.Some? && Lit(s, h, "href=\"").Some? then h else None
  }

  /** The back of the anchor pattern, from the start `a` of the quoted value: the value
      runs to the next `"`, and its capture is the segment after its last `/`; the capture
      and the end of the match, one past the closing quote. */
  function CloseAnchor(s: string, a: nat): (r: Option<(string, nat)>)
    requires a <= |s|
    ensures r.Some? ==> a < r.value.1 <= |s| && IsFileName(r.value.0)
  {
    var q := RunEnd(s, a, NotQuote);
    if q == |s| then None
    else match HrefName(s[a..q])
      case None => None
      case Some(name) =>
        QuoteFreeName(s, a, q, name);
        Some((name, q + 1))
  }

  /** The anchor pattern tried at position `i`: the captured name and the end of the match. */
  function MatchAnchorAt(s: string, i: nat): (r: Option<(string, nat)>)
    requires i <= |s|
    ensures r.Some? ==> i < r.value.1 <= |s| && IsFileName(r.value.0)
  {
    var h := HrefStart(s, i);
    if h.None? then None else CloseAnchor(s, h.value + 6)
  }

  /** A match `MatchAnchorAt` reports is an anchor match ending at the closing quote. */
  lemma MatchAnchorAtSound(s: string, i: nat)
    requires i <= |s| && MatchAnchorAt(s, i).Some?
    ensures HrefStart(s, i).Some?
    ensures AnchorMatch(s, i, HrefStart(s, i).value, MatchAnchorAt(s, i).value.1 - 1, MatchAnchorAt(s, i).value.0)
  {
  }

  /** A character that folds to a lower-case letter is a letter, not whitespace. */
  lemma FoldsToLetter(c: char)
    requires 'a' <= ToLower(c) <= 'z'
    ensures !IsSpace(c)
  {
  }

  /** The front of the pattern is found where it occurs. */
  lemma HrefStartAt(s: string, i: nat, h: nat)
    requires AnchorFront(s, i, h)
    ensures HrefStart(s, i) == Some(h)
  {
    assert ToLower(s[h + 0]) == "href=\""[0];
    FoldsToLetter(s[h]);
    RunEndAt(s, i + 2, h, Space);
  }

  /** The back of the pattern is found where it occurs. */
  lemma CloseAnchorAt(s: string, a: nat, q: nat, name: string)
    requires QuotedCapture(s, a, q, name)
    ensures CloseAnchor(s, a) == Some((name, q + 1))
  {
    RunEndAt(s, a, q, NotQuote);
  }

  /** The match at `i` is unique: whenever the anchor pattern matches there, `MatchAnchorAt`
      finds that match. */
  lemma MatchAnchorAtComplete(s: string, i: nat, h: nat, q: nat, name: string)
    requires AnchorMatch(s, i, h, q, name)
    ensures MatchAnchorAt(s, i) == Some((name, q + 1))
  {
    HrefStartAt(s, i, h);
    CloseAnchorAt(s, h + 6, q, name);
    MatchFromParts(s, i, h);
  }

  /** `MatchAnchorAt` is the back of the pattern after its front. */
  lemma MatchFromParts(s: string, i: nat, h: nat)
    requires i <= |s| && h + 6 <= |s| && HrefStart(s, i) == Some(h)
    ensures MatchAnchorAt(s, i) == CloseAnchor(s, h + 6)
  {
  }

  /** The name captured from a quoted value holds no `"`, since the value holds none. */
  lemma QuoteFreeName(s: string, a: nat, q: nat, name: string)
    requires a <= q <= |s| && forall k :: a <= k < q ==> IsNotQuote(s[k])
    requires HrefName(s[a..q]) == Some(name)
    ensures IsFileName(name)
  {
    var v := s[a..q];
    HrefNameSplit(v);
    forall j | 0 <= j < |name|
      ensures name[j] != '"'
    {
      assert name[j] == v[|v| - |name| + j];
      assert IsNotQuote(s[a + |v| - |name| + j]);
    }
  }

  /** `re.findall` of the anchor pattern from position `i`: every captured name, in page
      order, duplicates kept. */
  function ScanAnchors(s: string, i: nat): (names: seq<string>)
    requires i <= |s|
    ensures forall k :: 0 <= k < |names| ==> IsFileName(names[k])
    decreases |s| - i
  {
    if i == |s| then []
    else match MatchAnchorAt(s, i)
      case Some((name, e)) => [name] + ScanAnchors(s, e)
      case None => ScanAnchors(s, i + 1)
  }

  /** One step of `findall`: a match at `i` is reported and scanning resumes after it;
      otherwise scanning moves on by one character. */
  lemma ScanAnchorsStep(s: string, i: nat)
    requires i < |s|
    ensures MatchAnchorAt(s, i).None? ==> ScanAnchors(s, i) == ScanAnchors(s, i + 1)
    ensures MatchAnchorAt(s, i).Some? ==>
      ScanAnchors(s, i) == [MatchAnchorAt(s, i).value.0] + ScanAnchors(s, MatchAnchorAt(s, i).value.1)
  {
  }

  /** The leftmost position at or after `i` where the anchor pattern matches, `|s|` when
      there is none. */
  function NextAnchor(s: string, i: nat): (p: nat)
    requires i <= |s|
    ensures i <= p <= |s|
    ensures p < |s| ==> MatchAnchorAt(s, p).Some?
    ensures forall j :: i <= j < p ==> MatchAnchorAt(s, j).None?
    decreases |s| - i
  {
    if i == |s| || MatchAnchorAt(s, i).Some? then i else NextAnchor(s, i + 1)
  }

  /** `findall` reports the leftmost match from `i` first and resumes after it; with no
      match left it reports nothing. */
  lemma {:induction false} ScanAnchorsNext(s: string, i: nat)
    requires i <= |s|
    ensures var p := NextAnchor(s, i);
      ScanAnchors(s, i) == if p == |s| then [] else [MatchAnchorAt(s, p).value.0] + ScanAnchors(s, MatchAnchorAt(s, p).value.1)
    decreases |s| - i
  {
    if i < |s| {
      ScanAnchorsStep(s, i);
      if MatchAnchorAt(s, i).None? {
        assert NextAnchor(s, i) == NextAnchor(s, i + 1);
        ScanAnchorsNext(s, i + 1);
      } else {
        assert NextAnchor(s, i) == i;
      }
    }
  }

  /** One matched listing row: the date text (group 1), the size digits (group 2) and the
      file name (group 3). */
  datatype ListingRow = ListingRow(stamp: string, sizeDigits: string, name: string)

  predicate IsSizeText(t: string) {
    t != [] && AllDigits(t)
  }

  /** What every row the scanner yields satisfies: a file name and a size digit run. */
  predicate IsRow(row: ListingRow) {
    IsFileName(row.name) && IsSizeText(row.sizeDigits)
  }

  /** The date part of the row pattern at `i`: digits `/` digits `/` digits, whitespace,
      digits `:` digits, whitespace, a word; the end of the word. */
  function MatchDateAt(s: string, i: nat): (r: Option<nat>)
    requires i <= |s|
    ensures r.Some? ==> i < r.value <= |s|
  {
    var month := Run1(s, Some(i), Digit);
    var day := Run1(s, Lit(s, month, "/"), Digit);
    var year := Run1(s, Lit(s, day, "/"), Digit);
    var hour := Run1(s, Run1(s, year, Space), Digit);
    var minute := Run1(s, Lit(s, hour, ":"), Digit);
    Run1(s, Run1(s, minute, Space), Word)
  }

  /** The size part of the row pattern at `i`: whitespace, a digit run, whitespace; the
      bounds of the digit run and the end of the trailing whitespace. */
  function MatchSizeAt(s: string, i: nat): (r: Option<(nat, nat, nat)>)
    requires i <= |s|
    ensures r.Some? ==> i < r.value.0 < r.value.1 < r.value.2 <= |s|
    ensures r.Some? ==> IsSizeText(s[r.value.0..r.value.1])
    ensures r.Some? ==> forall k :: i <= k < r.value.0 ==> IsSpace(s[k])
    ensures r.Some? ==> forall k :: r.value.1 <= k < r.value.2 ==> IsSpace(s[k])
  {
    var sizeStart := Run1(s, Some(i), Space);
    var sizeEnd := Run1(s, sizeStart, Digit);
    var anchor := Run1(s, sizeEnd, Space);
    if anchor.None? then None
    else
      assert AllDigits(s[sizeStart.value..sizeEnd.value]);
      Some((sizeStart.value, sizeEnd.value, anchor.value))
  }

  /** The row pattern tried at position `i`: the row and the end of the match. */
  function MatchRowAt(s: string, i: nat): (r: Option<(ListingRow, nat)>)
    requires i <= |s|
    ensures r.Some? ==> i < r.value.1 <= |s| && IsRow(r.value.0)
  {
    match MatchDateAt(s, i)
    case None => None
    case Some(dateEnd) =>
      match MatchSizeAt(s, dateEnd)
      case None => None
      case Some((sizeStart, sizeEnd, anchor)) =>
        match MatchAnchorAt(s, anchor)
        case None => None
        case Some((name, e)) =>
          Some((ListingRow(s[i..dateEnd], s[sizeStart..sizeEnd], name), e))
  }

  /** `re.findall` of the row pattern from position `i`. */
  function ScanRows(s: string, i: nat): (rows: seq<ListingRow>)
    requires i <= |s|
    ensures forall k :: 0 <= k < |rows| ==> IsRow(rows[k])
    decreases |s| - i
  {
    if i == |s| then []
    else
      var m := MatchRowAt(s, i);
      if m.None? then ScanRows(s, i + 1)
      else
        var rest := ScanRows(s, m.value.1);
        var rows := [m.value.0] + rest;
        assert forall k :: 0 <= k < |rows| ==> IsRow(rows[k]) by {
          forall k | 0 <= k < |rows|
            ensures IsRow(rows[k])
          {
            if k > 0 { assert rows[k] == rest[k - 1]; }
          }
        }
        rows
  }
}
