/**
  The few `java.lang.String` / `Integer` operations the mail manager relies on,
  stated on Dafny strings (`seq<char>`).

  - `Trim` is `String.trim()`: it strips every leading and trailing char whose
    code is at most U+0020.
  - `IsBlank` is `String.isBlank()`: every char is `Character.isWhitespace`.
  - Case conversion and case-insensitive comparison fold ASCII letters only.
  - `ParseInt` is `Integer.parseInt` over ASCII digits with the 32-bit range.
*/
module JavaStrings {
  import opened Wrappers

  const INT_MIN: int := -0x8000_0000
  const INT_MAX: int := 0x7FFF_FFFF

  // ---------------------------------------------------------------------------
  // Character classes
  // ---------------------------------------------------------------------------

  /** `Character.isWhitespace`: the ASCII controls TAB..CR and FS..US, SPACE, and
      the Unicode space/line/paragraph separators other than the no-break ones
      (U+00A0, U+2007, U+202F). */
  predicate IsJavaWhitespace(c: char) {
    var n := c as int;
    (0x09 <= n <= 0x0D) || (0x1C <= n <= 0x20) || n == 0x1680
    || (0x2000 <= n <= 0x200A && n != 0x2007) || n == 0x2028 || n == 0x2029
    || n == 0x205F || n == 0x3000
  }

  /** The chars `String.trim()` removes. */
  predicate IsTrimmable(c: char) {
    c <= ' '
  }

  predicate IsDigit(c: char) {
    '0' <= c <= '9'
  }

  predicate AllDigits(s: string) {
    forall i :: 0 <= i < |s| ==> IsDigit(s[i])
  }

  // ---------------------------------------------------------------------------
  // isBlank / isEmpty / trim
  // ---------------------------------------------------------------------------

  /** `String.isBlank()`. */
  predicate IsBlank(s: string) {
    forall i :: 0 <= i < |s| ==> IsJavaWhitespace(s[i])
  }

  function TrimStart(s: string): (r: string)
    ensures |r| <= |s|
    ensures r == [] || !IsTrimmable(r[0])
    ensures forall i :: 0 <= i < |s| - |r| ==> IsTrimmable(s[i])
  {
    if s != [] && IsTrimmable(s[0]) then TrimStart(s[1..]) else s
  }

  function TrimEnd(s: string): (r: string)
    ensures |r| <= |s|
    ensures r == [] || !IsTrimmable(r[|r| - 1])
    ensures forall i :: |r| <= i < |s| ==> IsTrimmable(s[i])
  {
    if s != [] && IsTrimmable(s[|s| - 1]) then TrimEnd(s[..|s| - 1]) else s
  }

  /** `String.trim()`: the longest slice of `s` that neither starts nor ends with
      a char at most U+0020; everything cut off on either side is such a char. */
  function Trim(s: string): (r: string)
    ensures |r| <= |s|
    ensures r == [] || (!IsTrimmable(r[0]) && !IsTrimmable(r[|r| - 1]))
    ensures exists i :: OccursAt(s, r, i)
    ensures exists i :: CutAt(s, r, i)
  {
    var t := TrimStart(s);
    var r := TrimEnd(t);
    TrimStartIsSuffix(s);
    TrimEndIsPrefix(t);
    var i := |s| - |t|;
    assert OccursAt(s, r, i);
    assert forall j :: i + |r| <= j < |s| ==> s[j] == t[j - i];
    assert CutAt(s, r, i);
    r
  }

  /** `r` is the slice of `s` at `i`, and every char outside it is at most
      U+0020. */
  predicate CutAt(s: string, r: string, i: int) {
    OccursAt(s, r, i)
    && (forall j :: 0 <= j < i ==> IsTrimmable(s[j]))
    && (forall j :: i + |r| <= j < |s| ==> IsTrimmable(s[j]))
  }

  /** `TrimStart` only cuts chars off the front. */
  lemma {:induction false} TrimStartIsSuffix(s: string)
    ensures TrimStart(s) == s[|s| - |TrimStart(s)|..]
  {
    if s != [] && IsTrimmable(s[0]) {
      TrimStartIsSuffix(s[1..]);
    }
  }

  /** `TrimEnd` only cuts chars off the back. */
  lemma {:induction false} TrimEndIsPrefix(s: string)
    ensures TrimEnd(s) == s[..|TrimEnd(s)|]
  {
    if s != [] && IsTrimmable(s[|s| - 1]) {
      TrimEndIsPrefix(s[..|s| - 1]);
    }
  }

  /** Nothing trimmable at either end. */
  predicate IsTrimmed(s: string) {
    s == [] || (!IsTrimmable(s[0]) && !IsTrimmable(s[|s| - 1]))
  }

  /** `Trim` is the only cut of `s` with nothing trimmable at its ends: the
      contract above determines the result. */
  lemma {:induction false} TrimUnique(s: string, r: string, i: int)
    requires CutAt(s, r, i) && IsTrimmed(r)
    ensures r == Trim(s)
  {
    var t := Trim(s);
    var i1 :| CutAt(s, t, i1);
    if r != [] {
      assert s[i] == r[0] && s[i + |r| - 1] == r[|r| - 1];
    }
    if t != [] {
      assert s[i1] == t[0] && s[i1 + |t| - 1] == t[|t| - 1];
    }
    if r != [] && t != [] {
      assert i == i1 && i + |r| == i1 + |t|;
    }
  }

  /** Trimming a text whose middle part is framed by untrimmable chars trims
      only the two outer parts. */
  lemma {:induction false} TrimJoin(p: string, sep: string, q: string)
    requires p != [] && !IsTrimmable(p[|p| - 1])
    requires q != [] && !IsTrimmable(q[0])
    ensures Trim(p + sep + q) == Trim(p) + sep + Trim(q)
  {
    var t := TrimStart(p);
    TrimStartIsSuffix(p);
    assert t != [] && t[|t| - 1] == p[|p| - 1];
    TrimStartAppend(p, sep + q);
    assert p + sep + q == p + (sep + q);
    TrimEndAppend(t + sep, q);
    assert t + (sep + q) == (t + sep) + q;
    assert TrimStart(p + sep + q) == (t + sep) + q;
    assert Trim(p) == TrimEnd(t) == t;
    assert Trim(q) == TrimEnd(TrimStart(q)) == TrimEnd(q);
  }

  /** `TrimEnd` stops inside `b` when `b` starts with an untrimmable char. */
  lemma {:induction false} TrimEndAppend(a: string, b: string)
    requires b != [] && !IsTrimmable(b[0])
    ensures TrimEnd(a + b) == a + TrimEnd(b)
    decreases |b|
  {
    if IsTrimmable(b[|b| - 1]) {
      assert (a + b)[..|a + b| - 1] == a + b[..|b| - 1];
      TrimEndAppend(a, b[..|b| - 1]);
    }
  }

  /** A string that already has no trimmable char at either end is its own trim. */
  lemma {:induction false} TrimOfTrimmed(s: string)
    requires s == [] || (!IsTrimmable(s[0]) && !IsTrimmable(s[|s| - 1]))
    ensures Trim(s) == s
  {
  }

  lemma {:induction false} TrimStartAppend(s: string, t: string)
    ensures TrimStart(s + t) == if TrimStart(s) == [] then TrimStart(t) else TrimStart(s) + t
  {
    if s != [] {
      assert (s + t)[1..] == s[1..] + t;
      if IsTrimmable(s[0]) {
        TrimStartAppend(s[1..], t);
      }
    } else {
      assert s + t == t;
    }
  }

  /** Trimmable chars at the end do not change `TrimEnd`. */
  lemma {:induction false} TrimEndPad(s: string, pad: string)
    requires forall i :: 0 <= i < |pad| ==> IsTrimmable(pad[i])
    ensures TrimEnd(s + pad) == TrimEnd(s)
    decreases |pad|
  {
    if pad != [] {
      var u := s + pad;
      assert IsTrimmable(u[|u| - 1]);
      assert u[..|u| - 1] == s + pad[..|pad| - 1];
      TrimEndPad(s, pad[..|pad| - 1]);
    } else {
      assert s + pad == s;
    }
  }

  /** A string of trimmable chars only has nothing left after `TrimStart`. */
  lemma {:induction false} TrimStartOfPad(pad: string)
    requires forall i :: 0 <= i < |pad| ==> IsTrimmable(pad[i])
    ensures TrimStart(pad) == []
    decreases |pad|
  {
    if pad != [] {
      TrimStartOfPad(pad[1..]);
    }
  }

  /** A trailing space does not survive `trim`. */
  lemma {:induction false} TrimDropsTrailingSpace(s: string)
    ensures Trim(s + " ") == Trim(s)
  {
    TrimStartAppend(s, " ");
    TrimEndPad(TrimStart(s), " ");
  }

  /** Trimmable chars around a string do not survive `trim`. */
  lemma {:induction false} PaddedTrim(pad: string, v: string)
    requires forall i :: 0 <= i < |pad| ==> IsTrimmable(pad[i])
    ensures Trim(pad + v + pad) == Trim(v)
  {
    TrimStartOfPad(pad);
    assert pad + v + pad == pad + (v + pad);
    TrimStartAppend(pad, v + pad);
    TrimStartAppend(v, pad);
    TrimEndPad(TrimStart(v), pad);
  }

  /** The first separator of `a + [sep] + b` is the one after `a`. */
  lemma {:induction false} FirstSeparator(a: string, b: string, sep: char)
    requires sep !in a
    ensures IndexOfChar(a + [sep] + b, sep) == |a|
  {
    var u := a + [sep] + b;
    assert u[|a|] == sep;
    assert forall j :: 0 <= j < |a| ==> u[j] == a[j];
  }

  /** Text joined around a separator that occurs in neither left part splits
      back into the same two parts. */
  lemma {:induction false} SplitAtSeparator(a: string, b: string, c: string, d: string, sep: char)
    requires sep !in a && sep !in c
    requires a + [sep] + b == c + [sep] + d
    ensures a == c && b == d
  {
    var u := a + [sep] + b;
    FirstSeparator(a, b, sep);
    FirstSeparator(c, d, sep);
    assert a == u[..|a|] == c;
    assert b == u[|a| + 1..] == d;
  }

  /** Fields free of the separator are recovered from their joined text: equal
      joins of equally many such fields have equal fields. */
  lemma {:induction false} JoinIdentifies(xs: seq<string>, ys: seq<string>, sep: char)
    requires |xs| == |ys|
    requires forall i :: 0 <= i < |xs| ==> sep !in xs[i]
    requires forall i :: 0 <= i < |ys| ==> sep !in ys[i]
    requires Join(xs, [sep]) == Join(ys, [sep])
    ensures xs == ys
  {
    if |xs| > 1 {
      SplitAtSeparator(xs[0], Join(xs[1..], [sep]), ys[0], Join(ys[1..], [sep]), sep);
      JoinIdentifies(xs[1..], ys[1..], sep);
      assert xs == [xs[0]] + xs[1..];
      assert ys == [ys[0]] + ys[1..];
    }
  }

  /** Trimming is idempotent. */
  lemma {:induction false} TrimIdempotent(s: string)
    ensures Trim(Trim(s)) == Trim(s)
  {
    TrimOfTrimmed(Trim(s));
  }

  /** The trim is empty exactly when every char is at most U+0020. */
  lemma {:induction false} TrimEmptyMeansTrimmable(s: string)
    ensures Trim(s) == [] <==> forall i :: 0 <= i < |s| ==> IsTrimmable(s[i])
  {
    if Trim(s) == [] {
      assert TrimStart(s) == [];
    } else {
      var r := Trim(s);
      var k :| OccursAt(s, r, k);
      assert s[k] == r[0];
    }
  }

  // ---------------------------------------------------------------------------
  // Case folding (ASCII)
  // ---------------------------------------------------------------------------

  function LowerChar(c: char): char {
    if 'A' <= c <= 'Z' then (c as int + 32) as char else c
  }

  function UpperChar(c: char): char {
    if 'a' <= c <= 'z' then (c as int - 32) as char else c
  }

  /** `String.toLowerCase()` restricted to ASCII letters. */
  function ToLower(s: string): (r: string)
    ensures |r| == |s|
    ensures forall i :: 0 <= i < |s| ==> r[i] == LowerChar(s[i])
  {
    seq(|s|, i requires 0 <= i < |s| => LowerChar(s[i]))
  }

  /** `String.toUpperCase()` restricted to ASCII letters. */
  function ToUpper(s: string): (r: string)
    ensures |r| == |s|
    ensures forall i :: 0 <= i < |s| ==> r[i] == UpperChar(s[i])
  {
    seq(|s|, i requires 0 <= i < |s| => UpperChar(s[i]))
  }

  lemma {:induction false} ToLowerIdempotent(s: string)
    ensures ToLower(ToLower(s)) == ToLower(s)
  {
  }

  /** `ToLower` leaves a trimmable char trimmable and a non-trimmable one
      non-trimmable, so it commutes with `Trim`. */
  lemma {:induction false} TrimStartToLower(s: string)
    ensures TrimStart(ToLower(s)) == ToLower(TrimStart(s))
    decreases |s|
  {
    if s != [] && IsTrimmable(s[0]) {
      assert ToLower(s)[1..] == ToLower(s[1..]);
      TrimStartToLower(s[1..]);
    }
  }

  lemma {:induction false} TrimEndToLower(s: string)
    ensures TrimEnd(ToLower(s)) == ToLower(TrimEnd(s))
    decreases |s|
  {
    if s != [] {
      var t := ToLower(s);
      assert t[|s| - 1] == LowerChar(s[|s| - 1]);
      if IsTrimmable(s[|s| - 1]) {
        assert t[..|s| - 1] == ToLower(s[..|s| - 1]);
        TrimEndToLower(s[..|s| - 1]);
      }
    }
  }

  lemma {:induction false} TrimToLower(s: string)
    ensures Trim(ToLower(s)) == ToLower(Trim(s))
  {
    TrimStartToLower(s);
    TrimEndToLower(TrimStart(s));
  }

  /** The key every enum `parse` switches on: trimmed, `-` replaced by `_`,
      upper-cased. */
  function EnumKey(s: string): (k: string)
    ensures |k| <= |s|
    ensures forall i :: 0 <= i < |k| ==> k[i] != '-' && !('a' <= k[i] <= 'z')
  {
    var t := ReplaceChar(Trim(s), '-', '_');
    UpperKeepsNoDash(t);
    ToUpper(t)
  }

  lemma {:induction false} UpperKeepsNoDash(t: string)
    requires forall i :: 0 <= i < |t| ==> t[i] != '-'
    ensures forall i :: 0 <= i < |t| ==> ToUpper(t)[i] != '-' && !('a' <= ToUpper(t)[i] <= 'z')
  {
  }

  /** Already in the form `EnumKey` produces: upper case, no `-`, no trimmable
      char at either end. */
  predicate IsEnumKey(k: string) {
    (k == [] || (!IsTrimmable(k[0]) && !IsTrimmable(k[|k| - 1])))
    && forall i :: 0 <= i < |k| ==> k[i] != '-' && !('a' <= k[i] <= 'z')
  }

  /** A key in normal form is its own enum key, whatever its letter case. */
  lemma {:induction false} EnumKeyOfKey(k: string)
    requires IsEnumKey(k)
    ensures EnumKey(k) == k && EnumKey(ToLower(k)) == k
  {
    KeyIsFixed(k);
    EnumKeyIgnoresCase(k);
  }

  lemma {:induction false} KeyIsFixed(k: string)
    requires IsEnumKey(k)
    ensures EnumKey(k) == k
  {
    TrimOfTrimmed(k);
    var r := ReplaceChar(k, '-', '_');
    assert r == k;
    assert ToUpper(k) == k;
  }

  /** The enum key does not depend on the case of the input. */
  lemma {:induction false} EnumKeyIgnoresCase(s: string)
    ensures EnumKey(ToLower(s)) == EnumKey(s)
  {
    TrimToLower(s);
    var t := Trim(s);
    var lowered := ToUpper(ReplaceChar(ToLower(t), '-', '_'));
    var plain := ToUpper(ReplaceChar(t, '-', '_'));
    forall i | 0 <= i < |t|
      ensures lowered[i] == plain[i]
    {
      KeyCharIgnoresCase(t[i]);
    }
  }

  lemma {:induction false} KeyCharIgnoresCase(c: char)
    ensures UpperChar(if LowerChar(c) == '-' then '_' else LowerChar(c))
         == UpperChar(if c == '-' then '_' else c)
  {
  }

  /** `String.equalsIgnoreCase` (ASCII letters). */
  predicate EqualsIgnoreCase(a: string, b: string) {
    ToLower(a) == ToLower(b)
  }

  // ---------------------------------------------------------------------------
  // Searching and rewriting
  // ---------------------------------------------------------------------------

  /** `sub` occurs in `s` starting at position `i`. */
  predicate OccursAt(s: string, sub: string, i: int) {
    0 <= i <= |s| - |sub| && s[i..i + |sub|] == sub
  }

  /** `s.startsWith(p)`. */
  predicate IsPrefix(p: string, s: string) {
    |p| <= |s| && s[..|p|] == p
  }

  /** `s.endsWith(p)`. */
  predicate IsSuffix(p: string, s: string) {
    |p| <= |s| && s[|s| - |p|..] == p
  }

  /** `s.contains(sub)`: `sub` occurs at some position of `s`. */
  predicate Contains(s: string, sub: string)
    decreases |s|
  {
    IsPrefix(sub, s) || (|s| > 0 && Contains(s[1..], sub))
  }

  /** `Contains` is the existence of an occurrence. */
  lemma {:induction false} ContainsAt(s: string, sub: string)
    ensures Contains(s, sub) <==> exists i :: OccursAt(s, sub, i)
    decreases |s|
  {
    if IsPrefix(sub, s) {
      assert OccursAt(s, sub, 0);
    } else if |s| > 0 {
      ContainsAt(s[1..], sub);
      if exists i :: OccursAt(s, sub, i) {
        var i :| OccursAt(s, sub, i);
        assert i != 0;
        assert OccursAt(s[1..], sub, i - 1);
      }
      if Contains(s[1..], sub) {
        var j :| OccursAt(s[1..], sub, j);
        assert OccursAt(s, sub, j + 1);
      }
    }
  }

  /** `s.replace(from, to)` for chars. */
  function ReplaceChar(s: string, from: char, to: char): (r: string)
    ensures |r| == |s|
    ensures forall i :: 0 <= i < |s| ==> r[i] == (if s[i] == from then to else s[i])
  {
    seq(|s|, i requires 0 <= i < |s| => if s[i] == from then to else s[i])
  }

  /** `s.indexOf(c)`: the first position holding `c`, or -1. */
  function IndexOfChar(s: string, c: char): (r: int)
    ensures -1 <= r < |s|
    ensures r >= 0 ==> s[r] == c
    ensures forall i :: 0 <= i < |s| && (r < 0 || i < r) ==> s[i] != c
  {
    if s == [] then -1
    else if s[0] == c then 0
    else var k := IndexOfChar(s[1..], c); if k < 0 then -1 else k + 1
  }

  /** `s.replace(pat, rep)`: one left-to-right pass replacing non-overlapping
      occurrences of a non-empty pattern. */
  function ReplaceAll(s: string, pat: string, rep: string): (r: string)
    requires |pat| > 0
    ensures !Contains(s, pat) ==> r == s
    decreases |s|
  {
    if |s| < |pat| then s
    else if s[..|pat|] == pat then rep + ReplaceAll(s[|pat|..], pat, rep)
    else [s[0]] + ReplaceAll(s[1..], pat, rep)
  }

  /** `s.replace(pat, "")`: every non-overlapping occurrence is deleted. */
  function RemoveAll(s: string, pat: string): (r: string)
    requires |pat| > 0
    ensures |r| <= |s|
    ensures !Contains(s, pat) ==> r == s
    decreases |s|
  {
    if |s| < |pat| then s
    else if s[..|pat|] == pat then RemoveAll(s[|pat|..], pat)
    else [s[0]] + RemoveAll(s[1..], pat)
  }

  /** `String.join(sep, parts)`. */
  function Join(parts: seq<string>, sep: string): string {
    if parts == [] then ""
    else if |parts| == 1 then parts[0]
    else parts[0] + sep + Join(parts[1..], sep)
  }

  // ---------------------------------------------------------------------------
  // Integer.parseInt and Integer.toString
  // ---------------------------------------------------------------------------

  function DigitValue(c: char): nat
    requires IsDigit(c)
  {
    c as int - '0' as int
  }

  function DigitChar(d: nat): (c: char)
    requires d < 10
    ensures IsDigit(c) && DigitValue(c) == d
  {
    ('0' as int + d) as char
  }

  /** The value of a string of decimal digits. */
  function DigitsValue(d: string): nat
    requires AllDigits(d)
    decreases |d|
  {
    if d == [] then 0 else 10 * DigitsValue(d[..|d| - 1]) + DigitValue(d[|d| - 1])
  }

  /** `Integer.parseInt(s)`: an optional `-` or `+`, then at least one decimal
      digit, with the value inside the 32-bit range; `None` stands for the
      `NumberFormatException` thrown otherwise. */
  function ParseInt(s: string): (r: Option<int>)
    ensures r.Some? ==> INT_MIN <= r.value <= INT_MAX
    ensures r.Some? ==> s != [] && AllDigits(if s[0] == '-' || s[0] == '+' then s[1..] else s)
  {
    if s == [] then None
    else
      var neg := s[0] == '-';
      var digits := if s[0] == '-' || s[0] == '+' then s[1..] else s;
      if digits == [] || !AllDigits(digits) then None
      else
        var v: int := if neg then -(DigitsValue(digits) as int) else DigitsValue(digits);
        if INT_MIN <= v <= INT_MAX then Some(v) else None
  }

  /** `Integer.toString(n)` for a non-negative `n`. */
  function NatToString(n: nat): (s: string)
    decreases n
  {
    if n < 10 then [DigitChar(n)] else NatToString(n / 10) + [DigitChar(n % 10)]
  }

  /** `Integer.toString(n)`. */
  function IntToString(n: int): string {
    if n < 0 then "-" + NatToString(-n) else NatToString(n)
  }

  /** The decimal rendering is a non-empty digit string whose value is `n`. */
  lemma {:induction false} NatToStringDigits(n: nat)
    ensures |NatToString(n)| > 0 && AllDigits(NatToString(n))
    ensures DigitsValue(NatToString(n)) == n
    decreases n
  {
    var s := NatToString(n);
    if n >= 10 {
      NatToStringDigits(n / 10);
      assert s[..|s| - 1] == NatToString(n / 10);
      assert s[|s| - 1] == DigitChar(n % 10);
    }
  }

  /** Round trip: `Integer.parseInt(Integer.toString(n)) == n` on the 32-bit range. */
  lemma {:induction false} ParseIntToString(n: int)
    requires INT_MIN <= n <= INT_MAX
    ensures ParseInt(IntToString(n)) == Some(n)
  {
    var m := if n < 0 then -n else n;
    var sign := if n < 0 then "-" else "";
    NatToStringDigits(m);
    assert IntToString(n) == sign + NatToString(m);
    ParseIntOfDigits(sign, NatToString(m), n);
  }

  /** An optional minus sign before decimal digits reads as their value. */
  lemma {:induction false} ParseIntOfDigits(sign: string, d: string, v: int)
    requires sign == "" || sign == "-"
    requires d != [] && AllDigits(d)
    requires v == if sign == "-" then -(DigitsValue(d) as int) else DigitsValue(d)
    requires INT_MIN <= v <= INT_MAX
    ensures ParseInt(sign + d) == Some(v)
  {
    var s := sign + d;
    if sign == "-" {
      assert s[0] == '-' && s[1..] == d;
    } else {
      assert s == d;
      assert IsDigit(d[0]);
    }
  }


  // ---------------------------------------------------------------------------
  // Bytes and US-ASCII
  // ---------------------------------------------------------------------------

  newtype byte = x: int | 0 <= x < 256

  const CR: byte := 13
  const LF: byte := 10

  /** One char encoded as US-ASCII: outside ASCII it is `'?'`. */
  function EncodeChar(c: char): byte {
    if c as int < 128 then c as int as byte else '?' as int as byte
  }

  /** `new String(bytes, US_ASCII)`: a byte above 0x7F decodes to U+FFFD. */
  function AsciiDecode(bs: seq<byte>): (s: string)
    ensures |s| == |bs|
  {
    seq(|bs|, i requires 0 <= i < |bs| => if bs[i] < 128 then bs[i] as int as char else '\U{FFFD}')
  }

  /** `s.getBytes(US_ASCII)`, char by char. */
  function AsciiEncode(s: string): (bs: seq<byte>)
    ensures |bs| == |s|
    decreases |s|
  {
    if s == [] then [] else [EncodeChar(s[0])] + AsciiEncode(s[1..])
  }

  predicate IsAscii(s: string) {
    forall i :: 0 <= i < |s| ==> s[i] as int < 128
  }

  /** The byte at position `i` encodes the char at position `i`. */
  lemma {:induction false} AsciiEncodeAt(s: string, i: nat)
    requires i < |s|
    ensures AsciiEncode(s)[i] == EncodeChar(s[i])
    decreases i
  {
    if i > 0 {
      AsciiEncodeAt(s[1..], i - 1);
    }
  }

  /** ASCII text survives encoding and decoding. */
  lemma {:induction false} AsciiRoundTrip(s: string)
    requires IsAscii(s)
    ensures AsciiDecode(AsciiEncode(s)) == s
  {
    var d := AsciiDecode(AsciiEncode(s));
    forall i | 0 <= i < |s|
      ensures d[i] == s[i]
    {
      AsciiEncodeAt(s, i);
    }
  }

  lemma {:induction false} AsciiEncodeAppend(a: string, b: string)
    ensures AsciiEncode(a + b) == AsciiEncode(a) + AsciiEncode(b)
    decreases |a|
  {
    if a != [] {
      AsciiEncodeAppend(a[1..], b);
      assert (a + b)[1..] == a[1..] + b;
    } else {
      assert a + b == b;
    }
  }
}
