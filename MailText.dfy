/**
  Plain-text extraction from a MIME message, as `MailTextExtractor` does it
  (and, with the differences named by `Flavor`, its copy in `MailUtils`).

  A message is a tree of parts. The `StringBuilder` shared by the recursive
  traversal is threaded through as a string: every step takes the text built so
  far and returns the text after it, together with whether the step ended by
  throwing.
*/
module MailText {
  import opened Wrappers
  import opened JavaStrings
  import opened LangUtils

  /** Hard cap on the extracted text. */
  const MAX_OUTPUT_CHARS: nat := 200_000

  /** Which of the two copies of the extraction code: `MailTextExtractor` treats
      blank text as nothing (`emptyString`), `MailUtils` only empty text
      (`empty`); `MailUtils` also skips every image part that is not text. */
  datatype Flavor = TextExtractor | Utils

  /** A `Content-Type` as its primary type and sub-type. */
  datatype MimeType = MimeType(primary: string, sub: string)

  /** What `getContent()` yields for a part. */
  datatype Content =
    | Text(s: string)          // a String (transfer encoding already decoded)
    | Multi(parts: seq<Part>)  // a Multipart
    | Nested(msg: Part)        // an embedded Message
    | Other                    // any other object (e.g. an InputStream)
    | Broken                   // getContent() throws

  /**
    One MIME part. `disposition`, `fileName` and `contentIds` are the
    `getDisposition()`, `getFileName()` and `getHeader("Content-ID")` lookups;
    `stream` is the text read from `getInputStream()` in the detected charset
    (`None` when reading throws).
  */
  datatype Part = Part(ctype: MimeType, disposition: Option<string>, fileName: Option<string>,
                       contentIds: Option<seq<string>>, content: Content, stream: Option<string>)

  // ---------------------------------------------------------------------------
  // Type tests and the skip rule
  // ---------------------------------------------------------------------------

  predicate StartsWithStar(s: string) {
    |s| > 0 && s[0] == '*'
  }

  /** `Part.isMimeType("primary/sub")`: the primary types agree ignoring case,
      and the sub-types agree ignoring case unless either is a wildcard. */
  predicate IsMimeType(p: Part, primary: string, sub: string) {
    EqualsIgnoreCase(p.ctype.primary, primary)
    && (StartsWithStar(sub) || StartsWithStar(p.ctype.sub) || EqualsIgnoreCase(p.ctype.sub, sub))
  }

  /** Text that a copy of the code treats as nothing worth appending. */
  predicate IsNothing(fl: Flavor, s: Option<string>) {
    if fl.TextExtractor? then EmptyString(s) else Empty(s)
  }

  /** A text type or a message type, whatever the sub-type. */
  predicate IsTextish(p: Part) {
    IsMimeType(p, "text", "*") || IsMimeType(p, "message", "*")
  }

  /** `isSkippableBinary`: an attachment, or a non-text part carrying a file name
      or a Content-ID; the `MailUtils` copy also skips every non-text image. */
  predicate IsSkippableBinary(fl: Flavor, p: Part) {
    (p.disposition.Some? && EqualsIgnoreCase(p.disposition.value, "attachment"))
    || (!IsNothing(fl, p.fileName) && !IsTextish(p))
    || (p.contentIds.Some? && |p.contentIds.value| > 0 && !IsTextish(p))
    || (fl.Utils? && !IsMimeType(p, "text", "*") && IsMimeType(p, "image", "*"))
  }

  /** Whatever `MailTextExtractor` skips, `MailUtils` skips too. */
  lemma {:induction false} SkipFlavorsOrdered(p: Part)
    ensures IsSkippableBinary(TextExtractor, p) ==> IsSkippableBinary(Utils, p)
  {
    if !IsNothing(TextExtractor, p.fileName) {
      assert !IsNothing(Utils, p.fileName);
    }
  }

  /** The two copies differ: a bare inline image is skipped by `MailUtils` only. */
  lemma {:induction false} SkipFlavorsDiffer()
    ensures var img := Part(MimeType("image", "png"), None, None, None, Other, None);
      IsSkippableBinary(Utils, img) && !IsSkippableBinary(TextExtractor, img)
  {
    var img := Part(MimeType("image", "png"), None, None, None, Other, None);
    assert ToLower("image") == "image";
    assert ToLower("text") == "text";
    assert ToLower("text") != ToLower("image");
    assert ToLower("message") != ToLower("image");
  }

  // ---------------------------------------------------------------------------
  // cleanText
  // ---------------------------------------------------------------------------

  const NBSP: char := '\U{00A0}'

  /** The chars matched by the regex `\R`. */
  predicate IsLineBreak(c: char) {
    c == '\n' || c == '\U{000B}' || c == '\U{000C}' || c == '\r'
    || c == '\U{0085}' || c == '\U{2028}' || c == '\U{2029}'
  }

  /** The chars of the class `[\t\x0B\f ]`. */
  predicate IsHorizontalBlank(c: char) {
    c == '\t' || c == '\U{000B}' || c == '\U{000C}' || c == ' '
  }

  predicate NotLineBreak(c: char) {
    !IsLineBreak(c)
  }

  predicate NotBlank(c: char) {
    !IsHorizontalBlank(c)
  }

  /** A char `cleanText` never removes or rewrites: above U+0020, and neither
      a line break nor NBSP. */
  predicate IsVisible(c: char) {
    !IsTrimmable(c) && !IsLineBreak(c) && c != NBSP
  }

  /** The chars of `s` that `keep` accepts, in order. */
  function Select(s: string, keep: char -> bool): (r: string)
    ensures |r| <= |s|
  {
    if s == [] then [] else (if keep(s[0]) then [s[0]] else []) + Select(s[1..], keep)
  }

  lemma {:induction false} SelectCons(c: char, rest: string, keep: char -> bool)
    ensures Select([c] + rest, keep) == (if keep(c) then [c] else []) + Select(rest, keep)
  {
    assert ([c] + rest)[1..] == rest;
  }

  lemma {:induction false} SelectAppend(a: string, b: string, keep: char -> bool)
    ensures Select(a + b, keep) == Select(a, keep) + Select(b, keep)
    decreases |a|
  {
    if a == [] {
      assert a + b == b;
    } else {
      var h := if keep(a[0]) then [a[0]] else [];
      assert (a + b)[0] == a[0] && (a + b)[1..] == a[1..] + b;
      SelectAppend(a[1..], b, keep);
      calc {
        Select(a + b, keep);
        h + Select(a[1..] + b, keep);
        h + (Select(a[1..], keep) + Select(b, keep));
        (h + Select(a[1..], keep)) + Select(b, keep);
        Select(a, keep) + Select(b, keep);
      }
    }
  }

  /** A prefix of rejected chars contributes nothing. */
  lemma {:induction false} SelectDropRejected(s: string, k: int, keep: char -> bool)
    requires 0 <= k <= |s|
    requires forall i :: 0 <= i < k ==> !keep(s[i])
    ensures Select(s, keep) == Select(s[k..], keep)
    decreases k
  {
    if k > 0 {
      SelectDropRejected(s[1..], k - 1, keep);
      assert s[1..][k - 1..] == s[k..];
    }
  }

  /** Selecting with a wider test first and a narrower one afterwards is
      selecting with the narrower one. */
  lemma {:induction false} SelectNarrow(s: string, wide: char -> bool, narrow: char -> bool)
    requires forall i :: 0 <= i < |s| && narrow(s[i]) ==> wide(s[i])
    ensures Select(Select(s, wide), narrow) == Select(s, narrow)
    decreases |s|
  {
    if s != [] {
      SelectNarrow(s[1..], wide, narrow);
      var head := if wide(s[0]) then [s[0]] else [];
      SelectAppend(head, Select(s[1..], wide), narrow);
      if wide(s[0]) {
        SelectCons(s[0], [], narrow);
      }
    }
  }

  /** Two strings of the same length that differ only at rejected chars
      select the same. */
  lemma {:induction false} SelectPointwise(s: string, t: string, keep: char -> bool)
    requires |s| == |t|
    requires forall i :: 0 <= i < |s| ==> s[i] == t[i] || (!keep(s[i]) && !keep(t[i]))
    ensures Select(s, keep) == Select(t, keep)
    decreases |s|
  {
    if s != [] {
      SelectPointwise(s[1..], t[1..], keep);
    }
  }

  /** The length of the leading run of line breaks. */
  function LineBreakRun(s: string): (k: nat)
    ensures k <= |s|
    ensures forall i :: 0 <= i < k ==> IsLineBreak(s[i])
    ensures k < |s| ==> !IsLineBreak(s[k])
  {
    if s != [] && IsLineBreak(s[0]) then 1 + LineBreakRun(s[1..]) else 0
  }

  /** The length of the leading run of horizontal blanks. */
  function BlankRun(s: string): (k: nat)
    ensures k <= |s|
    ensures forall i :: 0 <= i < k ==> IsHorizontalBlank(s[i])
    ensures k < |s| ==> !IsHorizontalBlank(s[k])
  {
    if s != [] && IsHorizontalBlank(s[0]) then 1 + BlankRun(s[1..]) else 0
  }

  /** Line breaks at `i` and at `i + 1`. */
  predicate BreakPairAt(s: string, i: int) {
    0 <= i < |s| - 1 && IsLineBreak(s[i]) && IsLineBreak(s[i + 1])
  }

  /** Horizontal blanks at `i` and at `i + 1`. */
  predicate BlankPairAt(s: string, i: int) {
    0 <= i < |s| - 1 && IsHorizontalBlank(s[i]) && IsHorizontalBlank(s[i + 1])
  }

  /** No line break but `'\n'`, and never two line breaks in a row. */
  predicate SingleNewlines(s: string) {
    (forall i :: 0 <= i < |s| && IsLineBreak(s[i]) ==> s[i] == '\n')
    && (forall i :: 0 <= i < |s| - 1 ==> !BreakPairAt(s, i))
  }

  /** Never two horizontal blanks in a row. */
  predicate SingleBlanks(s: string) {
    forall i :: 0 <= i < |s| - 1 ==> !BlankPairAt(s, i)
  }

  predicate NoNbsp(s: string) {
    forall i :: 0 <= i < |s| ==> s[i] != NBSP
  }

  /** `replaceAll("\\R+", "\n")`: every maximal run of line breaks becomes one
      `'\n'`. */
  function CollapseLineBreaks(s: string): (r: string)
    ensures SingleNewlines(r)
    ensures s == [] <==> r == []
    ensures s != [] && !IsLineBreak(s[0]) ==> r[0] == s[0]
    ensures s != [] && IsLineBreak(s[0]) ==> r[0] == '\n'
    ensures Select(r, NotLineBreak) == Select(s, NotLineBreak)
    ensures NoNbsp(s) ==> NoNbsp(r)
    decreases |s|
  {
    if s == [] then []
    else if IsLineBreak(s[0]) then
      var k := LineBreakRun(s);
      var rest := CollapseLineBreaks(s[k..]);
      NewlinesCons('\n', rest);
      SelectCons('\n', rest, NotLineBreak);
      SelectDropRejected(s, k, NotLineBreak);
      ['\n'] + rest
    else
      var rest := CollapseLineBreaks(s[1..]);
      NewlinesCons(s[0], rest);
      SelectCons(s[0], rest, NotLineBreak);
      [s[0]] + rest
  }

  /** `replaceAll("[\\t\\x0B\\f ]{2,}", " ")`: every maximal run of two or more
      horizontal blanks becomes one space. */
  function CollapseBlanks(s: string): (r: string)
    ensures SingleBlanks(r)
    ensures s == [] <==> r == []
    ensures s != [] && !IsHorizontalBlank(s[0]) ==> r[0] == s[0]
    ensures s != [] && IsHorizontalBlank(s[0]) ==> r[0] == ' ' || r[0] == s[0]
    ensures NoNbsp(s) ==> NoNbsp(r)
    ensures SingleNewlines(s) ==> SingleNewlines(r)
    ensures Select(r, NotBlank) == Select(s, NotBlank)
    decreases |s|
  {
    if s == [] then []
    else
      var k := if IsHorizontalBlank(s[0]) then BlankRun(s) else 1;
      var c := if k >= 2 then ' ' else s[0];
      var rest := CollapseBlanks(s[k..]);
      assert k < |s| ==> s[k..][0] == s[k];
      BlanksStep(s, k, c, rest);
      [c] + rest
  }

  /** One step of `CollapseBlanks`: given what the collapsed rest satisfies,
      putting `c` in front of it satisfies the same for the whole text. */
  lemma {:induction false} BlanksStep(s: string, k: nat, c: char, rest: string)
    requires s != [] && k == (if IsHorizontalBlank(s[0]) then BlankRun(s) else 1)
    requires c == (if k >= 2 then ' ' else s[0])
    requires SingleBlanks(rest)
    requires k == |s| <==> rest == []
    requires k < |s| && !IsHorizontalBlank(s[k]) ==> rest[0] == s[k]
    requires k < |s| && IsHorizontalBlank(s[k]) ==> rest[0] == ' ' || rest[0] == s[k]
    requires NoNbsp(s[k..]) ==> NoNbsp(rest)
    requires SingleNewlines(s[k..]) ==> SingleNewlines(rest)
    requires Select(rest, NotBlank) == Select(s[k..], NotBlank)
    ensures SingleBlanks([c] + rest)
    ensures NoNbsp(s) ==> NoNbsp([c] + rest)
    ensures SingleNewlines(s) ==> SingleNewlines([c] + rest)
    ensures Select([c] + rest, NotBlank) == Select(s, NotBlank)
  {
    BlanksCons(c, rest);
    BlanksStepKeeps(s, k, c, rest);
    if NoNbsp(s) {
      assert NoNbsp(s[k..]);
      var r := [c] + rest;
      forall i | 0 <= i < |r| ensures r[i] != NBSP {
        if i > 0 {
          assert r[i] == rest[i - 1];
        }
      }
    }
    if SingleNewlines(s) {
      NewlinesSlice(s, k, |s|);
      assert s[k..|s|] == s[k..];
      BlanksStepNewlines(s, k, c, rest);
    }
  }

  /** One step of `CollapseBlanks` keeps the chars that are not blanks: the
      run it replaces holds only blanks, and a char that is no blank stays. */
  lemma {:induction false} BlanksStepKeeps(s: string, k: nat, c: char, rest: string)
    requires s != [] && k == (if IsHorizontalBlank(s[0]) then BlankRun(s) else 1)
    requires c == (if k >= 2 then ' ' else s[0])
    requires Select(rest, NotBlank) == Select(s[k..], NotBlank)
    ensures Select([c] + rest, NotBlank) == Select(s, NotBlank)
  {
    SelectCons(c, rest, NotBlank);
    if IsHorizontalBlank(s[0]) {
      SelectDropRejected(s, k, NotBlank);
    } else {
      SelectCons(s[0], s[1..], NotBlank);
      assert [s[0]] + s[1..] == s;
    }
  }

  /** One step of `CollapseBlanks` keeps line breaks single: what it writes
      in front of the collapsed rest is a blank or the char it found. */
  lemma {:induction false} BlanksStepNewlines(s: string, k: nat, c: char, rest: string)
    requires s != [] && k == (if IsHorizontalBlank(s[0]) then BlankRun(s) else 1)
    requires c == (if k >= 2 then ' ' else s[0])
    requires SingleNewlines(s) && SingleNewlines(rest)
    requires rest != [] ==> k < |s| && (rest[0] == s[k] || rest[0] == ' ')
    ensures SingleNewlines([c] + rest)
  {
    assert !BreakPairAt(s, 0);
    assert IsLineBreak(s[0]) ==> s[0] == '\n';
    if k < |s| {
      assert IsLineBreak(s[k]) ==> s[k] == '\n';
    }
    NewlinesCons(c, rest);
  }

  /** Two blanks in a row in `[c] + rest` are either `c` and the first of
      `rest`, or inside `rest`. */
  lemma {:induction false} BlanksCons(c: char, rest: string)
    ensures SingleBlanks([c] + rest)
            <==> SingleBlanks(rest) && !(rest != [] && IsHorizontalBlank(c) && IsHorizontalBlank(rest[0]))
  {
    var s := [c] + rest;
    if SingleBlanks(s) {
      forall i | 0 <= i < |rest| - 1 ensures !BlankPairAt(rest, i) {
        assert !BlankPairAt(s, i + 1);
        assert s[i + 1] == rest[i] && s[i + 2] == rest[i + 1];
      }
      if rest != [] {
        assert !BlankPairAt(s, 0);
      }
    }
    if SingleBlanks(rest) && !(rest != [] && IsHorizontalBlank(c) && IsHorizontalBlank(rest[0])) {
      forall i | 0 <= i < |s| - 1 ensures !BlankPairAt(s, i) {
        if i > 0 {
          assert !BlankPairAt(rest, i - 1);
          assert s[i] == rest[i - 1] && s[i + 1] == rest[i];
        }
      }
    }
  }

  /** `[c] + rest` has single newlines when `rest` has, `c` is no line break
      other than `'\n'`, and a `'\n'` is not followed by another break. */
  lemma {:induction false} NewlinesCons(c: char, rest: string)
    ensures SingleNewlines([c] + rest)
            <==> SingleNewlines(rest) && (IsLineBreak(c) ==> c == '\n' && (rest == [] || !IsLineBreak(rest[0])))
  {
    var s := [c] + rest;
    if SingleNewlines(s) {
      forall i | 0 <= i < |rest| - 1 ensures !BreakPairAt(rest, i) {
        assert !BreakPairAt(s, i + 1);
        assert s[i + 1] == rest[i] && s[i + 2] == rest[i + 1];
      }
      forall i | 0 <= i < |rest| && IsLineBreak(rest[i]) ensures rest[i] == '\n' {
        assert s[i + 1] == rest[i];
      }
      assert s[0] == c;
      if rest != [] {
        assert !BreakPairAt(s, 0);
        assert s[1] == rest[0];
      }
    }
    if SingleNewlines(rest) && (IsLineBreak(c) ==> c == '\n' && (rest == [] || !IsLineBreak(rest[0]))) {
      forall i | 0 <= i < |s| - 1 ensures !BreakPairAt(s, i) {
        if i > 0 {
          assert !BreakPairAt(rest, i - 1);
          assert s[i] == rest[i - 1] && s[i + 1] == rest[i];
        }
      }
      forall i | 0 <= i < |s| && IsLineBreak(s[i]) ensures s[i] == '\n' {
        if i > 0 {
          assert s[i] == rest[i - 1];
        }
      }
    }
  }

  /** A slice of text with single newlines has single newlines. */
  lemma {:induction false} NewlinesSlice(s: string, i: int, j: int)
    requires 0 <= i <= j <= |s| && SingleNewlines(s)
    ensures SingleNewlines(s[i..j])
  {
    var t := s[i..j];
    forall k | 0 <= k < |t| - 1 ensures !BreakPairAt(t, k) {
      assert !BreakPairAt(s, i + k);
      assert t[k] == s[i + k] && t[k + 1] == s[i + k + 1];
    }
    forall k | 0 <= k < |t| && IsLineBreak(t[k]) ensures t[k] == '\n' {
      assert t[k] == s[i + k];
    }
  }

  /** A slice of text with single blanks has single blanks. */
  lemma {:induction false} BlanksSlice(s: string, i: int, j: int)
    requires 0 <= i <= j <= |s| && SingleBlanks(s)
    ensures SingleBlanks(s[i..j])
  {
    var t := s[i..j];
    forall k | 0 <= k < |t| - 1 ensures !BlankPairAt(t, k) {
      assert !BlankPairAt(s, i + k);
      assert t[k] == s[i + k] && t[k + 1] == s[i + k + 1];
    }
  }

  /** What `cleanText` produces: no NBSP, no line break but single `'\n'`s,
      no two blanks in a row, and nothing trimmable at either end. */
  predicate IsClean(s: string) {
    (s == [] || (!IsTrimmable(s[0]) && !IsTrimmable(s[|s| - 1])))
    && NoNbsp(s) && SingleNewlines(s) && SingleBlanks(s)
  }

  /** `cleanText`: null gives `""`; otherwise NBSP becomes a space, line-break
      runs and blank runs are collapsed, and the result is trimmed. */
  function CleanText(text: Option<string>): (r: string)
    ensures text.None? ==> r == ""
    ensures IsClean(r)
    ensures text.Some? ==> Select(r, IsVisible) == Select(text.value, IsVisible)
  {
    if text.None? then ""
    else
      var s3 := CollapseBlanks(CollapseLineBreaks(ReplaceChar(text.value, NBSP, ' ')));
      CollapsedIsSingle(text.value);
      var r := Trim(s3);
      SliceKeepsClean(s3, r);
      CleanKeepsVisible(text.value);
      r
  }

  /** Each step of `cleanText` keeps the visible chars, in order: the NBSP
      replacement and the two collapses touch only invisible chars, and the
      trim cuts off only chars at most U+0020. */
  lemma {:induction false} CleanKeepsVisible(t: string)
    ensures var s3 := CollapseBlanks(CollapseLineBreaks(ReplaceChar(t, NBSP, ' ')));
            Select(Trim(s3), IsVisible) == Select(t, IsVisible)
  {
    var s1 := ReplaceChar(t, NBSP, ' ');
    SelectPointwise(s1, t, IsVisible);
    var s2 := CollapseLineBreaks(s1);
    SelectNarrow(s2, NotLineBreak, IsVisible);
    SelectNarrow(s1, NotLineBreak, IsVisible);
    var s3 := CollapseBlanks(s2);
    SelectNarrow(s3, NotBlank, IsVisible);
    SelectNarrow(s2, NotBlank, IsVisible);
    TrimKeepsVisible(s3);
  }

  /** The trim cuts off only chars at most U+0020, none of them visible. */
  lemma {:induction false} TrimKeepsVisible(s: string)
    ensures Select(Trim(s), IsVisible) == Select(s, IsVisible)
  {
    var r := Trim(s);
    var i :| CutAt(s, r, i);
    var front, back := s[..i], s[i + |r|..];
    CutSplits(s, r, i, front, back);
    SelectSkipsTrimmed(front, r, back);
  }

  /** The cut and what lies on either side of it make up the text, and the
      two sides hold only trimmable chars. */
  lemma {:induction false} CutSplits(s: string, r: string, i: int, front: string, back: string)
    requires CutAt(s, r, i) && front == s[..i] && back == s[i + |r|..]
    ensures s == front + r + back
    ensures forall j :: 0 <= j < |front| ==> IsTrimmable(front[j])
    ensures forall j :: 0 <= j < |back| ==> IsTrimmable(back[j])
  {
    forall j | 0 <= j < |back| ensures IsTrimmable(back[j]) {
      assert back[j] == s[i + |r| + j];
    }
  }

  /** Trimmable chars on either side add nothing visible. */
  lemma {:induction false} SelectSkipsTrimmed(front: string, r: string, back: string)
    requires forall j :: 0 <= j < |front| ==> IsTrimmable(front[j])
    requires forall j :: 0 <= j < |back| ==> IsTrimmable(back[j])
    ensures Select(front + r + back, IsVisible) == Select(r, IsVisible)
  {
    SelectNoneKept(front, IsVisible);
    SelectNoneKept(back, IsVisible);
    SelectAppend(front + r, back, IsVisible);
    SelectAppend(front, r, IsVisible);
  }

  /** A text of rejected chars only selects nothing. */
  lemma {:induction false} SelectNoneKept(s: string, keep: char -> bool)
    requires forall i :: 0 <= i < |s| ==> !keep(s[i])
    ensures Select(s, keep) == []
  {
    SelectDropRejected(s, |s|, keep);
    assert s[|s|..] == [];
  }

  /** After the replacements, before the trim: no NBSP, single line breaks,
      single blanks. */
  lemma {:induction false} CollapsedIsSingle(t: string)
    ensures var s3 := CollapseBlanks(CollapseLineBreaks(ReplaceChar(t, NBSP, ' ')));
            SingleBlanks(s3) && NoNbsp(s3) && SingleNewlines(s3)
  {
    var s1 := ReplaceChar(t, NBSP, ' ');
    assert NoNbsp(s1);
    var s2 := CollapseLineBreaks(s1);
    assert NoNbsp(s2) && SingleNewlines(s2);
  }

  lemma {:induction false} SliceKeepsClean(s: string, r: string)
    requires SingleBlanks(s) && NoNbsp(s) && SingleNewlines(s)
    requires exists i :: OccursAt(s, r, i)
    ensures SingleBlanks(r) && NoNbsp(r) && SingleNewlines(r)
  {
    var i :| OccursAt(s, r, i);
    assert r == s[i..i + |r|];
    BlanksSlice(s, i, i + |r|);
    NewlinesSlice(s, i, i + |r|);
  }

  lemma {:induction false} CollapseLineBreaksFixpoint(s: string)
    requires SingleNewlines(s)
    ensures CollapseLineBreaks(s) == s
    decreases |s|
  {
    if s != [] {
      NewlinesSlice(s, 1, |s|);
      assert s[1..|s|] == s[1..];
      CollapseLineBreaksFixpoint(s[1..]);
      if IsLineBreak(s[0]) {
        assert !BreakPairAt(s, 0);
        assert LineBreakRun(s) == 1;
      }
    }
  }

  lemma {:induction false} CollapseBlanksFixpoint(s: string)
    requires SingleBlanks(s)
    ensures CollapseBlanks(s) == s
    decreases |s|
  {
    if s != [] {
      var rest := s[1..];
      BlanksSlice(s, 1, |s|);
      assert s[1..|s|] == rest;
      CollapseBlanksFixpoint(rest);
      assert !BlankPairAt(s, 0);
      assert [s[0]] + rest == s;
      CollapseBlanksCons(s[0], rest);
    }
  }

  /** A char that does not start a run of two blanks is kept as it is. */
  lemma {:induction false} CollapseBlanksCons(c: char, rest: string)
    requires !(IsHorizontalBlank(c) && rest != [] && IsHorizontalBlank(rest[0]))
    ensures CollapseBlanks([c] + rest) == [c] + CollapseBlanks(rest)
  {
    var s := [c] + rest;
    assert s[0] == c && s[1..] == rest;
    if IsHorizontalBlank(c) {
      assert BlankRun(s) == 1 + BlankRun(rest);
    }
  }


  /** Clean text is left as it is. */
  lemma {:induction false} CleanTextFixpoint(s: string)
    requires IsClean(s)
    ensures CleanText(Some(s)) == s
  {
    assert ReplaceChar(s, NBSP, ' ') == s;
    CollapseLineBreaksFixpoint(s);
    CollapseBlanksFixpoint(s);
    TrimOfTrimmed(s);
  }

  /** `cleanText` is idempotent. */
  lemma {:induction false} CleanTextIdempotent(text: Option<string>)
    ensures CleanText(Some(CleanText(text))) == CleanText(text)
  {
    CleanTextFixpoint(CleanText(text));
  }

  // ---------------------------------------------------------------------------
  // Each whitespace run becomes exactly one separator
  // ---------------------------------------------------------------------------

  /** `a + b` has no run of line breaks across the seam. */
  predicate BreakSeam(a: string, b: string) {
    a == [] || b == [] || !IsLineBreak(a[|a| - 1]) || !IsLineBreak(b[0])
  }

  /** `a + b` has no run of horizontal blanks across the seam. */
  predicate BlankSeam(a: string, b: string) {
    a == [] || b == [] || !IsHorizontalBlank(a[|a| - 1]) || !IsHorizontalBlank(b[0])
  }

  lemma {:induction false} LineBreakRunAppend(a: string, b: string)
    requires a != [] && BreakSeam(a, b)
    ensures LineBreakRun(a + b) == LineBreakRun(a)
    decreases |a|
  {
    if IsLineBreak(a[0]) {
      assert (a + b)[1..] == a[1..] + b;
      if |a| > 1 {
        LineBreakRunAppend(a[1..], b);
      } else {
        assert a[1..] + b == b;
      }
    }
  }

  lemma {:induction false} BlankRunAppend(a: string, b: string)
    requires a != [] && BlankSeam(a, b)
    ensures BlankRun(a + b) == BlankRun(a)
    decreases |a|
  {
    if IsHorizontalBlank(a[0]) {
      assert (a + b)[1..] == a[1..] + b;
      if |a| > 1 {
        BlankRunAppend(a[1..], b);
      } else {
        assert a[1..] + b == b;
      }
    }
  }

  /** The sequence bookkeeping of a step: with `whole == h + tail`, `tail ==
      x + y` and `left == h + x`, `whole` is `left + y`. */
  lemma {:induction false} SeamStep(h: string, whole: string, tail: string, x: string, y: string, left: string)
    requires whole == h + tail && tail == x + y && left == h + x
    ensures whole == left + y
  {
  }

  /** How far one step of `CollapseLineBreaks` reads: the whole run of line
      breaks at the front, or one other char. */
  function BreakStep(s: string): (k: nat)
    requires s != []
    ensures 1 <= k <= |s|
  {
    if IsLineBreak(s[0]) then LineBreakRun(s) else 1
  }

  /** How far one step of `CollapseBlanks` reads. */
  function BlankStep(s: string): (k: nat)
    requires s != []
    ensures 1 <= k <= |s|
  {
    if IsHorizontalBlank(s[0]) then BlankRun(s) else 1
  }

  lemma {:induction false} CollapseLineBreaksUnfold(s: string)
    requires s != []
    ensures CollapseLineBreaks(s)
            == [if IsLineBreak(s[0]) then '\n' else s[0]] + CollapseLineBreaks(s[BreakStep(s)..])
  {
  }

  lemma {:induction false} CollapseBlanksUnfold(s: string)
    requires s != []
    ensures CollapseBlanks(s)
            == [if BlankStep(s) >= 2 then ' ' else s[0]] + CollapseBlanks(s[BlankStep(s)..])
  {
  }

  /** The first step over `a + b` is the first step over `a`. */
  lemma {:induction false} BreakStepAppend(a: string, b: string)
    requires a != [] && BreakSeam(a, b)
    ensures (a + b)[0] == a[0] && BreakStep(a + b) == BreakStep(a)
    ensures (a + b)[BreakStep(a)..] == a[BreakStep(a)..] + b
    ensures BreakSeam(a[BreakStep(a)..], b)
  {
    if IsLineBreak(a[0]) {
      LineBreakRunAppend(a, b);
    }
    var k := BreakStep(a);
    var rest := a[k..];
    assert (a + b)[k..] == rest + b;
    if rest != [] {
      assert rest[|rest| - 1] == a[|a| - 1];
    }
  }

  /** Away from a run of line breaks, collapsing works piece by piece. */
  lemma {:induction false} CollapseLineBreaksAppend(a: string, b: string)
    requires BreakSeam(a, b)
    ensures CollapseLineBreaks(a + b) == CollapseLineBreaks(a) + CollapseLineBreaks(b)
    decreases |a|
  {
    if a == [] {
      assert a + b == b;
    } else {
      var k := BreakStep(a);
      BreakStepAppend(a, b);
      var h := [if IsLineBreak(a[0]) then '\n' else a[0]];
      CollapseLineBreaksUnfold(a + b);
      CollapseLineBreaksUnfold(a);
      CollapseLineBreaksAppend(a[k..], b);
      CollapseLineBreaksAppendStep(a, b, k, h);
    }
  }

  /** The inductive step of `CollapseLineBreaksAppend`, once both sides are
      unfolded. */
  lemma {:induction false} CollapseLineBreaksAppendStep(a: string, b: string, k: nat, h: string)
    requires k <= |a|
    requires CollapseLineBreaks(a + b) == h + CollapseLineBreaks(a[k..] + b)
    requires CollapseLineBreaks(a) == h + CollapseLineBreaks(a[k..])
    requires CollapseLineBreaks(a[k..] + b) == CollapseLineBreaks(a[k..]) + CollapseLineBreaks(b)
    ensures CollapseLineBreaks(a + b) == CollapseLineBreaks(a) + CollapseLineBreaks(b)
  {
    SeamStep(h, CollapseLineBreaks(a + b), CollapseLineBreaks(a[k..] + b), CollapseLineBreaks(a[k..]), CollapseLineBreaks(b), CollapseLineBreaks(a));
  }



  /** The first step over `a + b` is the first step over `a`. */
  lemma {:induction false} BlankStepAppend(a: string, b: string)
    requires a != [] && BlankSeam(a, b)
    ensures (a + b)[0] == a[0] && BlankStep(a + b) == BlankStep(a)
    ensures (a + b)[BlankStep(a)..] == a[BlankStep(a)..] + b
    ensures BlankSeam(a[BlankStep(a)..], b)
  {
    if IsHorizontalBlank(a[0]) {
      BlankRunAppend(a, b);
    }
    var k := BlankStep(a);
    var rest := a[k..];
    assert (a + b)[k..] == rest + b;
    if rest != [] {
      assert rest[|rest| - 1] == a[|a| - 1];
    }
  }

  /** Away from a run of blanks, collapsing works piece by piece. */
  lemma {:induction false} CollapseBlanksAppend(a: string, b: string)
    requires BlankSeam(a, b)
    ensures CollapseBlanks(a + b) == CollapseBlanks(a) + CollapseBlanks(b)
    decreases |a|
  {
    if a == [] {
      assert a + b == b;
    } else {
      var k := BlankStep(a);
      BlankStepAppend(a, b);
      var h := [if k >= 2 then ' ' else a[0]];
      CollapseBlanksUnfold(a + b);
      CollapseBlanksUnfold(a);
      CollapseBlanksAppend(a[k..], b);
      CollapseBlanksAppendStep(a, b, k, h);
    }
  }

  /** The inductive step of `CollapseBlanksAppend`, once both sides are
      unfolded. */
  lemma {:induction false} CollapseBlanksAppendStep(a: string, b: string, k: nat, h: string)
    requires k <= |a|
    requires CollapseBlanks(a + b) == h + CollapseBlanks(a[k..] + b)
    requires CollapseBlanks(a) == h + CollapseBlanks(a[k..])
    requires CollapseBlanks(a[k..] + b) == CollapseBlanks(a[k..]) + CollapseBlanks(b)
    ensures CollapseBlanks(a + b) == CollapseBlanks(a) + CollapseBlanks(b)
  {
    SeamStep(h, CollapseBlanks(a + b), CollapseBlanks(a[k..] + b), CollapseBlanks(a[k..]), CollapseBlanks(b), CollapseBlanks(a));
  }



  /** A whole run of line breaks becomes one `'\n'`. */
  lemma {:induction false} LineBreaksBecomeNewline(run: string)
    requires run != [] && forall i :: 0 <= i < |run| ==> IsLineBreak(run[i])
    ensures CollapseLineBreaks(run) == "\n"
  {
    assert LineBreakRun(run) == |run|;
    assert run[|run|..] == [];
  }

  /** A whole run of two or more blanks becomes one space. */
  lemma {:induction false} BlanksBecomeSpace(run: string)
    requires |run| >= 2 && forall i :: 0 <= i < |run| ==> IsHorizontalBlank(run[i])
    ensures CollapseBlanks(run) == " "
  {
    assert BlankRun(run) == |run|;
    assert run[|run|..] == [];
  }

  /** A whole run of blanks becomes one space, unless it is a single blank. */
  lemma {:induction false} BlankRunCollapsed(run: string)
    requires run != [] && forall i :: 0 <= i < |run| ==> IsHorizontalBlank(run[i])
    ensures CollapseBlanks(run) == if |run| >= 2 then " " else run
  {
    if |run| >= 2 {
      BlanksBecomeSpace(run);
    } else {
      assert BlankStep(run) == 1 && run[1..] == [];
      CollapseBlanksUnfold(run);
    }
  }

  /** A text without line breaks is left alone by `CollapseLineBreaks`. */
  lemma {:induction false} NoLineBreakUnchanged(s: string)
    requires forall i :: 0 <= i < |s| ==> !IsLineBreak(s[i])
    ensures CollapseLineBreaks(s) == s
    decreases |s|
  {
    if s != [] {
      NoLineBreakUnchanged(s[1..]);
      assert [s[0]] + s[1..] == s;
    }
  }

  /** The sequence bookkeeping of a splice: with `whole == left + tail` and
      `tail == mid + right`, `whole` is `left + mid + right`. */
  lemma {:induction false} Splice(whole: string, left: string, tail: string, mid: string, right: string)
    requires whole == left + tail && tail == mid + right
    ensures whole == left + mid + right
  {
  }

  lemma {:induction false} Regrouped(a: string, run: string, b: string)
    ensures a + run + b == a + (run + b)
  {
  }

  /** `replaceAll("\\R+", "\n")`: a run of line breaks between two other
      chars becomes exactly one `'\n'`. */
  lemma {:induction false} CollapseLineBreaksRun(a: string, run: string, b: string)
    requires run != [] && forall i :: 0 <= i < |run| ==> IsLineBreak(run[i])
    requires a == [] || !IsLineBreak(a[|a| - 1])
    requires b == [] || !IsLineBreak(b[0])
    ensures CollapseLineBreaks(a + run + b) == CollapseLineBreaks(a) + "\n" + CollapseLineBreaks(b)
  {
    Regrouped(a, run, b);
    CollapseLineBreaksAppend(a, run + b);
    CollapseLineBreaksAppend(run, b);
    LineBreaksBecomeNewline(run);
    Splice(CollapseLineBreaks(a + run + b), CollapseLineBreaks(a), CollapseLineBreaks(run + b),
           CollapseLineBreaks(run), CollapseLineBreaks(b));
  }

  /** `replaceAll("[\\t\\x0B\\f ]{2,}", " ")`: a run of blanks between two
      other chars becomes exactly one space when it has two or more, and stays
      as it is otherwise. */
  lemma {:induction false} CollapseBlanksRun(a: string, run: string, b: string)
    requires run != [] && forall i :: 0 <= i < |run| ==> IsHorizontalBlank(run[i])
    requires a == [] || !IsHorizontalBlank(a[|a| - 1])
    requires b == [] || !IsHorizontalBlank(b[0])
    ensures CollapseBlanks(a + run + b) == CollapseBlanks(a) + (if |run| >= 2 then " " else run) + CollapseBlanks(b)
  {
    Regrouped(a, run, b);
    CollapseBlanksAppend(a, run + b);
    CollapseBlanksAppend(run, b);
    BlankRunCollapsed(run);
    Splice(CollapseBlanks(a + run + b), CollapseBlanks(a), CollapseBlanks(run + b),
           CollapseBlanks(run), CollapseBlanks(b));
  }

  /** What `cleanText` does before its final trim. */
  function Collapsed(t: string): string {
    CollapseBlanks(CollapseLineBreaks(ReplaceChar(t, NBSP, ' ')))
  }

  lemma {:induction false} ReplaceCharAppend(a: string, b: string, from: char, to: char)
    ensures ReplaceChar(a + b, from, to) == ReplaceChar(a, from, to) + ReplaceChar(b, from, to)
  {
    assert ReplaceChar(a + b, from, to) == ReplaceChar(a, from, to) + ReplaceChar(b, from, to);
  }

  /** A visible last char of `t` is still last after the NBSP replacement and
      the line-break collapse. */
  lemma {:induction false} LineBrokenEndsWith(t: string)
    requires t != [] && IsVisible(t[|t| - 1])
    ensures var l := CollapseLineBreaks(ReplaceChar(t, NBSP, ' '));
            l != [] && l[|l| - 1] == t[|t| - 1]
  {
    var r := ReplaceChar(t, NBSP, ' ');
    var x := r[|r| - 1];
    assert r == r[..|r| - 1] + [x];
    CollapseLineBreaksAppend(r[..|r| - 1], [x]);
    NoLineBreakUnchanged([x]);
  }

  /** A visible first char of `t` is still first after the NBSP replacement
      and the line-break collapse. */
  lemma {:induction false} LineBrokenStartsWith(t: string)
    requires t != [] && IsVisible(t[0])
    ensures var l := CollapseLineBreaks(ReplaceChar(t, NBSP, ' '));
            l != [] && l[0] == t[0]
  {
  }

  /** Next to a visible char the three replacements work piece by piece. */
  lemma {:induction false} CollapsedAppend(a: string, b: string)
    requires (a != [] && IsVisible(a[|a| - 1])) || (b != [] && IsVisible(b[0]))
    ensures Collapsed(a + b) == Collapsed(a) + Collapsed(b)
  {
    if a != [] && IsVisible(a[|a| - 1]) {
      SeamsAfterVisible(a, b);
    } else {
      SeamsBeforeVisible(a, b);
    }
    CollapsedSeams(a, b);
  }

  /** A visible char at the end of `a` keeps both seams free of runs. */
  lemma {:induction false} SeamsAfterVisible(a: string, b: string)
    requires a != [] && IsVisible(a[|a| - 1])
    ensures BreakSeam(ReplaceChar(a, NBSP, ' '), ReplaceChar(b, NBSP, ' '))
    ensures BlankSeam(CollapseLineBreaks(ReplaceChar(a, NBSP, ' ')), CollapseLineBreaks(ReplaceChar(b, NBSP, ' ')))
  {
    var ra := ReplaceChar(a, NBSP, ' ');
    assert ra[|ra| - 1] == a[|a| - 1];
    LineBrokenEndsWith(a);
  }

  /** A visible char at the start of `b` keeps both seams free of runs. */
  lemma {:induction false} SeamsBeforeVisible(a: string, b: string)
    requires b != [] && IsVisible(b[0])
    ensures BreakSeam(ReplaceChar(a, NBSP, ' '), ReplaceChar(b, NBSP, ' '))
    ensures BlankSeam(CollapseLineBreaks(ReplaceChar(a, NBSP, ' ')), CollapseLineBreaks(ReplaceChar(b, NBSP, ' ')))
  {
    var rb := ReplaceChar(b, NBSP, ' ');
    assert rb[0] == b[0];
    LineBrokenStartsWith(b);
  }

  /** With no run across either seam, the three replacements work piece by
      piece. */
  lemma {:induction false} CollapsedSeams(a: string, b: string)
    requires BreakSeam(ReplaceChar(a, NBSP, ' '), ReplaceChar(b, NBSP, ' '))
    requires BlankSeam(CollapseLineBreaks(ReplaceChar(a, NBSP, ' ')), CollapseLineBreaks(ReplaceChar(b, NBSP, ' ')))
    ensures Collapsed(a + b) == Collapsed(a) + Collapsed(b)
  {
    var ra, rb := ReplaceChar(a, NBSP, ' '), ReplaceChar(b, NBSP, ' ');
    ReplaceCharAppend(a, b, NBSP, ' ');
    CollapseLineBreaksAppend(ra, rb);
    CollapseBlanksAppend(CollapseLineBreaks(ra), CollapseLineBreaks(rb));
  }

  /** A single visible char is left as it is. */
  lemma {:induction false} CollapsedVisible(c: char)
    requires IsVisible(c)
    ensures Collapsed([c]) == [c]
  {
    assert ReplaceChar([c], NBSP, ' ') == [c];
    NoLineBreakUnchanged([c]);
  }

  /** A visible last char survives the replacements, still last. */
  lemma {:induction false} CollapsedEndsVisible(a: string)
    requires a != [] && IsVisible(a[|a| - 1])
    ensures Collapsed(a) != [] && !IsTrimmable(Collapsed(a)[|Collapsed(a)| - 1])
  {
    var x := a[|a| - 1];
    assert a == a[..|a| - 1] + [x];
    CollapsedAppend(a[..|a| - 1], [x]);
    CollapsedVisible(x);
  }

  /** A visible first char survives the replacements, still first. */
  lemma {:induction false} CollapsedStartsVisible(b: string)
    requires b != [] && IsVisible(b[0])
    ensures Collapsed(b) != [] && !IsTrimmable(Collapsed(b)[0])
  {
    assert b == [b[0]] + b[1..];
    CollapsedAppend([b[0]], b[1..]);
    CollapsedVisible(b[0]);
  }

  /** Between two visible chars, the replacements before the trim turn a
      separating run into `sep` and leave both sides as they would be alone. */
  lemma {:induction false} CollapsedJoin(a: string, run: string, b: string, sep: string)
    requires a != [] && IsVisible(a[|a| - 1]) && b != [] && IsVisible(b[0])
    requires Collapsed(run) == sep
    ensures Collapsed(a + (run + b)) == Collapsed(a) + sep + Collapsed(b)
  {
    CollapsedAppend(a, run + b);
    CollapsedAppend(run, b);
    Splice(Collapsed(a + (run + b)), Collapsed(a), Collapsed(run + b), Collapsed(run), Collapsed(b));
  }


  /** Between two visible chars, `cleanText` turns a separating run into
      `sep`, trimming only the outer ends. */
  lemma {:induction false} CleanTextJoin(a: string, run: string, b: string, sep: string)
    requires a != [] && IsVisible(a[|a| - 1]) && b != [] && IsVisible(b[0])
    requires Collapsed(run) == sep
    ensures CleanText(Some(a + run + b)) == CleanText(Some(a)) + sep + CleanText(Some(b))
  {
    Regrouped(a, run, b);
    CollapsedJoin(a, run, b, sep);
    CollapsedEndsVisible(a);
    CollapsedStartsVisible(b);
    TrimJoin(Collapsed(a), sep, Collapsed(b));
  }

  /** Between two visible chars, `cleanText` turns a run of line breaks into
      exactly one `'\n'` and cleans the two sides on their own. */
  lemma {:induction false} CleanTextJoinsLines(a: string, run: string, b: string)
    requires a != [] && IsVisible(a[|a| - 1]) && b != [] && IsVisible(b[0])
    requires run != [] && forall i :: 0 <= i < |run| ==> IsLineBreak(run[i])
    ensures CleanText(Some(a + run + b)) == CleanText(Some(a)) + "\n" + CleanText(Some(b))
  {
    assert ReplaceChar(run, NBSP, ' ') == run;
    LineBreaksBecomeNewline(run);
    assert Collapsed(run) == "\n";
    CleanTextJoin(a, run, b, "\n");
  }

  /** Between two visible chars, `cleanText` turns a run of two or more spaces,
      tabs or NBSPs into exactly one space; a single one stays, an NBSP as a
      space. */
  lemma {:induction false} CleanTextJoinsWords(a: string, run: string, b: string)
    requires a != [] && IsVisible(a[|a| - 1]) && b != [] && IsVisible(b[0])
    requires run != [] && forall i :: 0 <= i < |run| ==> run[i] in {' ', '\t', NBSP}
    ensures var sep := if |run| >= 2 || run[0] == NBSP then " " else run;
            CleanText(Some(a + run + b)) == CleanText(Some(a)) + sep + CleanText(Some(b))
  {
    var r := ReplaceChar(run, NBSP, ' ');
    assert forall i :: 0 <= i < |r| ==> r[i] == ' ' || r[i] == '\t';
    NoLineBreakUnchanged(r);
    var sep := if |run| >= 2 || run[0] == NBSP then " " else run;
    if |run| >= 2 {
      BlanksBecomeSpace(r);
    } else {
      assert r == sep;
    }
    assert Collapsed(run) == sep;
    CleanTextJoin(a, run, b, sep);
  }

  // ---------------------------------------------------------------------------
  // Payloads, HTML and paragraphs
  // ---------------------------------------------------------------------------

  /** `getTextPayload`: the String content, else the text of the input stream;
      any failure gives `""`. */
  function TextPayload(p: Part): (r: string)
    ensures p.content.Text? ==> r == p.content.s
    ensures p.content.Broken? ==> r == ""
  {
    match p.content
    case Text(s) => s
    case Broken => ""
    case _ => p.stream.GetOr("")
  }

  /** The HTML renderer: parse, add the line-break markers, take the document
      text. */
  type Renderer = string -> string

  /** `htmlToPlainText`: nothing for nothing; otherwise the rendered text with the
      literal two-char markers turned into line breaks, then cleaned. */
  function HtmlToPlainText(fl: Flavor, html: string, render: Renderer): (r: string)
    ensures IsNothing(fl, Some(html)) ==> r == ""
    ensures IsClean(r)
  {
    if IsNothing(fl, Some(html)) then ""
    else CleanText(Some(ReplaceAll(render(html), "\\n", "\n")))
  }

  /** `appendParagraph`: nothing for nothing; otherwise the text goes on a line of
      its own (a `'\n'` is added first when the buffer does not already end a
      line) and is followed by a blank line. */
  function AppendParagraph(fl: Flavor, out: string, text: string): (r: string)
    ensures IsNothing(fl, Some(text)) ==> r == out
    ensures !IsNothing(fl, Some(text)) ==>
      var start := |r| - |text| - 2;
      IsPrefix(out, r) && IsSuffix(text + "\n\n", r)
      && start == (if out == [] || out[|out| - 1] == '\n' then |out| else |out| + 1)
      && (start == 0 || r[start - 1] == '\n')
  {
    if IsNothing(fl, Some(text)) then out
    else (if |out| > 0 && out[|out| - 1] != '\n' then out + "\n" else out) + text + "\n\n"
  }

  // ---------------------------------------------------------------------------
  // multipart/alternative
  // ---------------------------------------------------------------------------

  /** A child `pickFromAlternative` may take in the pass for `text/sub`. */
  predicate IsCandidate(fl: Flavor, p: Part, sub: string) {
    !IsSkippableBinary(fl, p) && IsMimeType(p, "text", sub)
  }

  /** The last candidate for `text/sub`, or -1 when there is none. */
  function LastCandidate(fl: Flavor, ps: seq<Part>, sub: string): (i: int)
    ensures -1 <= i < |ps|
    ensures i >= 0 ==> IsCandidate(fl, ps[i], sub)
    ensures forall j :: i < j < |ps| ==> !IsCandidate(fl, ps[j], sub)
    decreases |ps|
  {
    if ps == [] then -1
    else if IsCandidate(fl, ps[|ps| - 1], sub) then |ps| - 1
    else LastCandidate(fl, ps[..|ps| - 1], sub)
  }

  /** What `pickFromAlternative` chooses: the last HTML child rendered, else the
      last plain-text child cleaned, else the last child of any text type
      cleaned, else `""`. */
  function AlternativeText(fl: Flavor, ps: seq<Part>, render: Renderer): (r: string)
    ensures IsClean(r)
    ensures (forall j :: 0 <= j < |ps| ==> !IsCandidate(fl, ps[j], "*")) ==> r == ""
    ensures r == "" || exists i :: 0 <= i < |ps| && IsCandidate(fl, ps[i], "*")
                                    && (r == HtmlToPlainText(fl, TextPayload(ps[i]), render)
                                        || r == CleanText(Some(TextPayload(ps[i]))))
  {
    var h := LastCandidate(fl, ps, "html");
    if h >= 0 then HtmlToPlainText(fl, TextPayload(ps[h]), render)
    else
      var t := LastCandidate(fl, ps, "plain");
      if t >= 0 then CleanText(Some(TextPayload(ps[t])))
      else
        var a := LastCandidate(fl, ps, "*");
        if a >= 0 then CleanText(Some(TextPayload(ps[a]))) else ""
  }

  /** The last HTML child wins over every plain-text child, wherever they sit. */
  lemma {:induction false} AlternativePrefersLastHtml(fl: Flavor, ps: seq<Part>, render: Renderer, i: int)
    requires 0 <= i < |ps| && IsCandidate(fl, ps[i], "html")
    requires forall j :: i < j < |ps| ==> !IsCandidate(fl, ps[j], "html")
    ensures AlternativeText(fl, ps, render) == HtmlToPlainText(fl, TextPayload(ps[i]), render)
  {
    assert LastCandidate(fl, ps, "html") == i;
  }

  /** With no HTML child, the last plain-text child is taken. */
  lemma {:induction false} AlternativeFallsBackToPlain(fl: Flavor, ps: seq<Part>, render: Renderer, i: int)
    requires forall j :: 0 <= j < |ps| ==> !IsCandidate(fl, ps[j], "html")
    requires 0 <= i < |ps| && IsCandidate(fl, ps[i], "plain")
    requires forall j :: i < j < |ps| ==> !IsCandidate(fl, ps[j], "plain")
    ensures AlternativeText(fl, ps, render) == CleanText(Some(TextPayload(ps[i])))
  {
    assert LastCandidate(fl, ps, "html") == -1;
    assert LastCandidate(fl, ps, "plain") == i;
  }

  /** With neither an HTML nor a plain-text child, the last child of any
      other text type is taken. */
  lemma {:induction false} AlternativeFallsBackToAnyText(fl: Flavor, ps: seq<Part>, render: Renderer, i: int)
    requires forall j :: 0 <= j < |ps| ==> !IsCandidate(fl, ps[j], "html") && !IsCandidate(fl, ps[j], "plain")
    requires 0 <= i < |ps| && IsCandidate(fl, ps[i], "*")
    requires forall j :: i < j < |ps| ==> !IsCandidate(fl, ps[j], "*")
    ensures AlternativeText(fl, ps, render) == CleanText(Some(TextPayload(ps[i])))
  {
    assert LastCandidate(fl, ps, "html") == -1;
    assert LastCandidate(fl, ps, "plain") == -1;
    assert LastCandidate(fl, ps, "*") == i;
  }

  /** One scan of `pickFromAlternative`, from the last child to the first,
      stopping at the first candidate for `text/sub`. */
  method ScanLast(fl: Flavor, ps: seq<Part>, sub: string) returns (i: int)
    ensures i == LastCandidate(fl, ps, sub)
  {
    i := |ps| - 1;
    while i >= 0
      invariant -1 <= i < |ps|
      invariant forall j :: i < j < |ps| ==> !IsCandidate(fl, ps[j], sub)
    {
      if IsCandidate(fl, ps[i], sub) {
        return;
      }
      i := i - 1;
    }
  }

  /** `pickFromAlternative`: three scans from the last child to the first. */
  method PickFromAlternative(fl: Flavor, ps: seq<Part>, render: Renderer) returns (r: string)
    ensures r == AlternativeText(fl, ps, render)
  {
    var h := ScanLast(fl, ps, "html");
    if h >= 0 {
      return HtmlToPlainText(fl, TextPayload(ps[h]), render);
    }
    var t := ScanLast(fl, ps, "plain");
    if t >= 0 {
      return CleanText(Some(TextPayload(ps[t])));
    }
    var a := ScanLast(fl, ps, "*");
    if a >= 0 {
      return CleanText(Some(TextPayload(ps[a])));
    }
    return "";
  }

  // ---------------------------------------------------------------------------
  // The traversal
  // ---------------------------------------------------------------------------

  /** The buffer after a step, and whether the step completed without throwing. */
  datatype Extraction = Extraction(text: string, ok: bool)

  /** A container whose content is examined with `getContent()` in `extractPart`. */
  predicate IsContainer(p: Part) {
    IsMimeType(p, "multipart", "*") || IsMimeType(p, "message", "rfc822")
  }

  /** The index of the first `text/html` or `text/plain` child, or `|ps|`. */
  function FirstTextual(ps: seq<Part>): (i: nat)
    ensures i <= |ps|
    ensures i < |ps| ==> IsMimeType(ps[i], "text", "html") || IsMimeType(ps[i], "text", "plain")
    ensures forall j :: 0 <= j < i ==> !IsMimeType(ps[j], "text", "html") && !IsMimeType(ps[j], "text", "plain")
  {
    if ps == [] then 0
    else if IsMimeType(ps[0], "text", "html") || IsMimeType(ps[0], "text", "plain") then 0
    else 1 + FirstTextual(ps[1..])
  }

  /**
    `extractPart`: skipped parts add nothing; text parts add their cleaned text
    as a paragraph; `multipart/alternative` adds the text it picks;
    `multipart/related` extracts its first HTML or plain child only; any other
    multipart extracts every child, an error in one not stopping the rest; a
    `message/rfc822` part extracts the nested message; other text types add
    their cleaned text. A container whose content cannot be read throws.
  */
  function ExtractPart(fl: Flavor, p: Part, out: string, render: Renderer): (e: Extraction)
    ensures IsPrefix(out, e.text)
    ensures IsSkippableBinary(fl, p) ==> e == Extraction(out, true)
    ensures !e.ok ==> IsContainer(p)
    decreases p
  {
    if IsSkippableBinary(fl, p) then Extraction(out, true)
    else if IsMimeType(p, "text", "plain") then
      var txt := TextPayload(p);
      Extraction(if IsNothing(fl, Some(txt)) then out else AppendParagraph(fl, out, CleanText(Some(txt))), true)
    else if IsMimeType(p, "text", "html") then
      var html := TextPayload(p);
      Extraction(if IsNothing(fl, Some(html)) then out else AppendParagraph(fl, out, HtmlToPlainText(fl, html, render)), true)
    else if IsMimeType(p, "multipart", "alternative") then
      match p.content
      case Broken => Extraction(out, false)
      case Multi(ps) =>
        var best := AlternativeText(fl, ps, render);
        Extraction(if IsNothing(fl, Some(best)) then out else AppendParagraph(fl, out, best), true)
      case _ => Extraction(out, true)
    else if IsMimeType(p, "multipart", "related") then
      match p.content
      case Broken => Extraction(out, false)
      case Multi(ps) =>
        var i := FirstTextual(ps);
        if i < |ps| then ExtractPart(fl, ps[i], out, render) else Extraction(out, true)
      case _ => Extraction(out, true)
    else if IsMimeType(p, "multipart", "*") then
      match p.content
      case Broken => Extraction(out, false)
      case Multi(ps) => Extraction(ExtractChildren(fl, ps, out, render), true)
      case _ => Extraction(out, true)
    else if IsMimeType(p, "message", "rfc822") then
      match p.content
      case Broken => Extraction(out, false)
      case Nested(m) => ExtractPart(fl, m, out, render)
      case _ => Extraction(out, true)
    else if IsMimeType(p, "text", "*") then
      var txt := TextPayload(p);
      Extraction(if IsNothing(fl, Some(txt)) then out else AppendParagraph(fl, out, CleanText(Some(txt))), true)
    else Extraction(out, true)
  }

  /** The generic multipart loop: each child in order, each in its own
      `try`/`catch`, keeping whatever a failing child appended. */
  function ExtractChildren(fl: Flavor, ps: seq<Part>, out: string, render: Renderer): (r: string)
    ensures IsPrefix(out, r)
    decreases ps
  {
    if ps == [] then out
    else ExtractChildren(fl, ps[1..], ExtractPart(fl, ps[0], out, render).text, render)
  }

  /** Extracting the children one list after another is extracting them in one
      go: each child starts from whatever the previous ones left, whether or not
      they threw. */
  lemma {:induction false} ExtractChildrenAppend(fl: Flavor, ps: seq<Part>, q: Part, out: string, render: Renderer)
    ensures ExtractChildren(fl, ps + [q], out, render)
         == ExtractPart(fl, q, ExtractChildren(fl, ps, out, render), render).text
    decreases |ps|
  {
    if ps != [] {
      assert (ps + [q])[1..] == ps[1..] + [q];
      ExtractChildrenAppend(fl, ps[1..], q, ExtractPart(fl, ps[0], out, render).text, render);
    }
  }

  /** A generic multipart keeps going after a child that throws: the child's
      partial output stays and the next sibling is still extracted. */
  lemma {:induction false} GenericMultipartSurvivesChildError(fl: Flavor, p: Part, bad: Part, next: Part, out: string, render: Renderer)
    requires !IsSkippableBinary(fl, p) && IsMimeType(p, "multipart", "mixed")
    requires !IsMimeType(p, "multipart", "alternative") && !IsMimeType(p, "multipart", "related")
    requires p.content == Multi([bad, next])
    requires !ExtractPart(fl, bad, out, render).ok
    ensures ExtractPart(fl, p, out, render).ok
    ensures ExtractPart(fl, p, out, render).text
         == ExtractPart(fl, next, ExtractPart(fl, bad, out, render).text, render).text
  {
    assert !IsMimeType(p, "text", "plain") && !IsMimeType(p, "text", "html") by {
      assert ToLower("multipart") != ToLower("text");
    }
    var t1 := ExtractPart(fl, bad, out, render).text;
    assert [bad, next][1..] == [next];
    assert ExtractChildren(fl, [next], t1, render) == ExtractPart(fl, next, t1, render).text by {
      assert [next][1..] == [];
    }
  }

  /** `multipart/related` extracts its first HTML or plain child and nothing
      else; with no such child it adds nothing. */
  lemma {:induction false} RelatedTakesFirstTextual(fl: Flavor, p: Part, ps: seq<Part>, out: string, render: Renderer)
    requires !IsSkippableBinary(fl, p) && IsMimeType(p, "multipart", "related")
    requires !IsMimeType(p, "multipart", "alternative")
    requires p.content == Multi(ps)
    ensures var i := FirstTextual(ps);
      ExtractPart(fl, p, out, render)
        == if i < |ps| then ExtractPart(fl, ps[i], out, render) else Extraction(out, true)
  {
    assert !IsMimeType(p, "text", "plain") && !IsMimeType(p, "text", "html") by {
      assert ToLower("multipart") != ToLower("text");
    }
  }

  // ---------------------------------------------------------------------------
  // The entry point
  // ---------------------------------------------------------------------------

  /** `trimToMax`: null gives `""`; otherwise the text cut to at most `max`
      chars. */
  function TrimToMax(s: Option<string>, max: nat): (r: string)
    ensures |r| == if |s.GetOr("")| <= max then |s.GetOr("")| else max
    ensures IsPrefix(r, s.GetOr(""))
  {
    if s.None? || |s.value| <= max then s.GetOr("") else s.value[..max]
  }

  /** The text the traversal leaves in the buffer, whether it completed or threw. */
  function Accumulated(fl: Flavor, msg: Option<Part>, render: Renderer): string {
    if msg.None? then "" else ExtractPart(fl, msg.value, "", render).text
  }

  /** `extractTextFromMessage`: the buffer built by the traversal (an exception
      only ends it early), trimmed and cut to `MAX_OUTPUT_CHARS`. */
  function ExtractTextFromMessage(fl: Flavor, msg: Option<Part>, render: Renderer): (r: string)
    ensures |r| <= MAX_OUTPUT_CHARS
    ensures IsPrefix(r, Trim(Accumulated(fl, msg, render)))
    ensures |Trim(Accumulated(fl, msg, render))| <= MAX_OUTPUT_CHARS ==> r == Trim(Accumulated(fl, msg, render))
    ensures r == [] || !IsTrimmable(r[0])
  {
    TrimToMax(Some(Trim(Accumulated(fl, msg, render))), MAX_OUTPUT_CHARS)
  }

  /** A message that is itself an attachment (or otherwise skippable) yields no
      text. */
  lemma {:induction false} SkippedMessageYieldsNothing(fl: Flavor, msg: Part, render: Renderer)
    requires IsSkippableBinary(fl, msg)
    ensures ExtractTextFromMessage(fl, Some(msg), render) == ""
  {
  }
}
