/**
  The string helpers of `LangUtils`. A Java `null` argument is `None`.
*/
module LangUtils {
  import opened Wrappers
  import opened JavaStrings

  /** `isPositiveInt`: the trimmed text parses as a 32-bit integer above zero;
      a parse failure is `false`. */
  function IsPositiveInt(s: string): (r: bool)
    ensures r ==> ParseInt(Trim(s)).Some? && ParseInt(Trim(s)).value > 0
    ensures ParseInt(Trim(s)).Some? && ParseInt(Trim(s)).value > 0 ==> r
  {
    match ParseInt(Trim(s))
    case Some(v) => v > 0
    case None => false
  }

  /** Printing a 32-bit value and asking whether it is a positive int answers
      whether the value is above zero. */
  lemma {:induction false} IsPositiveIntOfPrinted(n: int)
    requires INT_MIN <= n <= INT_MAX
    ensures IsPositiveInt(IntToString(n)) <==> n > 0
  {
    ParseIntToString(n);
    NatToStringDigits(if n < 0 then -n else n);
    var s := IntToString(n);
    assert s[0] == '-' || IsDigit(s[0]);
    TrimOfTrimmed(s);
  }

  /** `nullToSomething` AS WRITTEN: `""` for `null`, `def` for every other input,
      so the argument's own text is never returned. */
  function NullToSomething(s: Option<string>, def: string): (r: string)
    ensures s.None? ==> r == ""
    ensures s.Some? ==> r == def
  {
    if s.None? then "" else def
  }

  /** `nullToEmpty` as written: it delegates to `NullToSomething` with `""`. */
  function NullToEmpty(s: Option<string>): string {
    NullToSomething(s, "")
  }

  /** As written, `nullToEmpty` erases every input, even a non-null one. */
  lemma {:induction false} NullToEmptyErasesText(s: string)
    ensures NullToEmpty(Some(s)) == ""
    ensures s != "" ==> NullToEmpty(Some(s)) != s
  {
  }

  /** The evidently intended `nullToSomething`: the text itself when present,
      else the default. */
  function NullToSomethingIntended(s: Option<string>, def: string): (r: string)
    ensures s.Some? ==> r == s.value
    ensures s.None? ==> r == def
  {
    s.GetOr(def)
  }

  /** With the intended helper, `nullToEmpty` keeps every non-null text and maps
      null to the empty string. */
  lemma {:induction false} NullToEmptyIntended(s: Option<string>)
    ensures NullToSomethingIntended(s, "") == (if s.Some? then s.value else "")
    ensures s.Some? ==> NullToSomethingIntended(s, "") != NullToSomething(s, "") || s.value == ""
  {
  }

  /** `parseIntOr`: null reads as `""`, the text is trimmed, and any parse
      failure yields `def`. */
  function ParseIntOr(s: Option<string>, def: int): (r: int)
    ensures s.None? ==> r == def
    ensures ParseInt(Trim(s.GetOr(""))).Some? ==> r == ParseInt(Trim(s.GetOr(""))).value
    ensures ParseInt(Trim(s.GetOr(""))).None? ==> r == def
  {
    match ParseInt(Trim(if s.None? then "" else s.value))
    case Some(v) => v
    case None => def
  }

  /** Round trip: the printed form of a 32-bit value, padded with spaces, parses
      back to that value whatever the default. */
  lemma {:induction false} ParseIntOrOfPrinted(n: int, pad: string, def: int)
    requires INT_MIN <= n <= INT_MAX
    requires forall i :: 0 <= i < |pad| ==> pad[i] == ' '
    ensures ParseIntOr(Some(pad + IntToString(n) + pad), def) == n
  {
    ParseIntToString(n);
    NatToStringDigits(if n < 0 then -n else n);
    var p := IntToString(n);
    var s := pad + p + pad;
    assert p[0] == '-' || IsDigit(p[0]);
    assert IsDigit(p[|p| - 1]);
    assert s == pad + (p + pad);
    TrimStartDropsPad(pad, p + pad);
    TrimEndDropsPad(p, pad);
  }

  lemma {:induction false} TrimStartDropsPad(pad: string, rest: string)
    requires forall i :: 0 <= i < |pad| ==> pad[i] == ' '
    requires rest != [] && !IsTrimmable(rest[0])
    ensures TrimStart(pad + rest) == rest
    decreases |pad|
  {
    var s := pad + rest;
    if pad != [] {
      assert s[0] == ' ';
      assert s[1..] == pad[1..] + rest;
      TrimStartDropsPad(pad[1..], rest);
    } else {
      assert s == rest;
    }
  }

  lemma {:induction false} TrimEndDropsPad(body: string, pad: string)
    requires forall i :: 0 <= i < |pad| ==> pad[i] == ' '
    requires body != [] && !IsTrimmable(body[|body| - 1])
    ensures TrimEnd(body + pad) == body
    decreases |pad|
  {
    var s := body + pad;
    if pad != [] {
      assert s[|s| - 1] == ' ';
      assert s[..|s| - 1] == body + pad[..|pad| - 1];
      TrimEndDropsPad(body, pad[..|pad| - 1]);
    } else {
      assert s == body;
    }
  }

  /** `emptyString`: null or whitespace only. */
  predicate EmptyString(content: Option<string>) {
    content.None? || IsBlank(content.value)
  }

  /** `empty`: null or of length zero. */
  predicate Empty(content: Option<string>) {
    content.None? || content.value == ""
  }

  /** A null or empty string is also blank; a blank one need not be empty. */
  lemma {:induction false} EmptyImpliesEmptyString(content: Option<string>)
    ensures Empty(content) ==> EmptyString(content)
    ensures EmptyString(Some(" ")) && !Empty(Some(" "))
  {
  }

  /** `normalize`: null becomes `""`, anything else is trimmed: the result is
      a slice of the text with only chars at most U+0020 cut off around it. */
  function Normalize(s: Option<string>): (r: string)
    ensures s.None? ==> r == ""
    ensures r == [] || (!IsTrimmable(r[0]) && !IsTrimmable(r[|r| - 1]))
    ensures s.Some? ==> exists i :: CutAt(s.value, r, i)
  {
    if s.None? then "" else Trim(s.value)
  }

  /** `normalize` is idempotent. */
  lemma {:induction false} NormalizeIdempotent(s: Option<string>)
    ensures Normalize(Some(Normalize(s))) == Normalize(s)
  {
    TrimOfTrimmed(Normalize(s));
  }

  /** `s(format)` with no values: the normalized format text. */
  function S(format: Option<string>): (r: string)
    ensures format.None? ==> r == ""
    ensures IsTrimmed(r)
    ensures format.Some? ==> exists i :: CutAt(format.value, r, i)
    ensures format.Some? && IsTrimmed(format.value) ==> r == format.value
  {
    if format.Some? && IsTrimmed(format.value) then TrimOfTrimmed(format.value); Normalize(format)
    else Normalize(format)
  }

  /** Formatting an already formatted text with no values gives it back. */
  lemma {:induction false} SIdempotent(format: Option<string>)
    ensures S(Some(S(format))) == S(format)
  {
    NormalizeIdempotent(format);
  }

  // ---------------------------------------------------------------------------
  // Exception messages
  // ---------------------------------------------------------------------------

  /** A `Throwable` as seen by the helpers: `getMessage()` (possibly null),
      `toString()`, and `getCause()`. */
  datatype Throwable = Throwable(message: Option<string>, text: string, cause: Option<Throwable>)

  /** `exMsg`: the message when it is not blank, else `toString()`. */
  function ExMsg(t: Throwable): (r: string)
    ensures EmptyString(t.message) ==> r == t.text
    ensures !EmptyString(t.message) ==> r == t.message.value
  {
    if EmptyString(t.message) then t.text else t.message.value
  }

  /** The throwable followed by its causes, outermost first. */
  function CauseChain(t: Throwable): (chain: seq<Throwable>)
    ensures |chain| > 0 && chain[0] == t
    decreases t
  {
    match t.cause
    case None => [t]
    case Some(c) => [t] + CauseChain(c)
  }

  /** `rootCauseMsg`: "Null Throwable" for null, else follow `getCause()` to the
      end of the chain. */
  function RootCauseMsg(t: Option<Throwable>): string
    decreases t
  {
    match t
    case None => "Null Throwable"
    case Some(x) => if x.cause.Some? then RootCauseMsg(x.cause) else ExMsg(x)
  }

  /** `rootCauseMsg` reports the `exMsg` of the innermost throwable: the last one
      of the cause chain, the one without a cause. */
  lemma {:induction false} RootCauseIsInnermost(t: Throwable)
    ensures var chain := CauseChain(t);
      chain[|chain| - 1].cause.None? && RootCauseMsg(Some(t)) == ExMsg(chain[|chain| - 1])
    decreases t
  {
    match t.cause
    case None =>
    case Some(c) =>
      RootCauseIsInnermost(c);
      assert CauseChain(t)[|CauseChain(t)| - 1] == CauseChain(c)[|CauseChain(c)| - 1];
  }
}
