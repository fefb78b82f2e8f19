/**
  The SPAMC/1.5 client of `SpamAssassinClient`: the request it writes, the
  response it reads (status line, CRLF header lines up to an empty line, an
  optional body sized by `Content-length`), and the `Spam:` header verdict.

  The socket is a `Server` function from the request bytes to the reply bytes;
  the UTF-8 decoding of the body and `Double.parseDouble` are parameters.
  An `EOFException` or a `ProtocolException` is a `Failure` (see `IsEof`).
*/
module SpamAssassin {
  import opened Wrappers
  import opened JavaStrings
  import LangUtils
  import MailUtils

  datatype Command = CHECK | SYMBOLS

  /** `Command.getVerb()`. */
  function Verb(cmd: Command): string {
    match cmd
    case CHECK => "CHECK"
    case SYMBOLS => "SYMBOLS"
  }

  /** Why a request fails. */
  datatype SpamdError =
    | NoStatusLine
    | TruncatedBody(expected: int, got: int)
    | InvalidContentLength(value: string)
    | InvalidStatusLine(line: string)
    | InvalidStatusCode(line: string)
    | NotOk(code: int, statusText: string)
    | MissingSpamHeader
    | BadSpamBoolean(header: string)
    | NoScoreThreshold(header: string)
    | InvalidScore(header: string)
    | InvalidThreshold(header: string)

  /** The failures raised as `EOFException`; every other one is a
      `ProtocolException`. */
  predicate IsEof(e: SpamdError) {
    e.NoStatusLine? || e.TruncatedBody?
  }

  // ---------------------------------------------------------------------------
  // Framing: a first line, header lines, an empty line, then raw body bytes
  // ---------------------------------------------------------------------------

  /** Text that can travel as one CRLF line: ASCII and free of CR. */
  predicate IsLineText(s: string) {
    forall i :: 0 <= i < |s| ==> s[i] as int < 128 && s[i] != '\r'
  }

  /** Each line in US-ASCII, followed by CR LF. */
  function EncodeLines(lines: seq<string>): (bs: seq<byte>)
    decreases |lines|
  {
    if lines == [] then [] else AsciiEncode(lines[0] + "\r\n") + EncodeLines(lines[1..])
  }

  /** The bytes of a first line, its header lines and the empty line. */
  function FrameHead(first: string, headers: seq<string>): (bs: seq<byte>)
    ensures |bs| >= 2
  {
    AsciiEncode(first + "\r\n") + EncodeLines(headers) + AsciiEncode("\r\n")
  }

  /** The bytes of a first line, its header lines, the empty line and the body. */
  function Frame(first: string, headers: seq<string>, body: seq<byte>): (bs: seq<byte>)
    ensures |bs| >= |body| + 2
  {
    FrameHead(first, headers) + body
  }

  /** The header lines of a request: the body length, then `User` unless the
      configured user is null or blank. */
  function RequestHeaders(bodyLength: nat, user: Option<string>): (hs: seq<string>)
    ensures |hs| == if LangUtils.EmptyString(user) then 1 else 2
    ensures hs[0] == "Content-length: " + IntToString(bodyLength)
    ensures |hs| == 2 ==> hs[1] == "User: " + user.value
  {
    ["Content-length: " + IntToString(bodyLength)]
    + (if LangUtils.EmptyString(user) then [] else ["User: " + user.value])
  }

  /** The bytes `sendWithBody` writes: `<VERB> SPAMC/1.5`, the headers, an empty
      line and the message itself. */
  function Request(cmd: Command, body: seq<byte>, user: Option<string>): (bs: seq<byte>)
    ensures |bs| >= |body| && bs[|bs| - |body|..] == body
  {
    Frame(Verb(cmd) + " SPAMC/1.5", RequestHeaders(|body|, user), body)
  }

  /** The loop that reads header lines: it stops at the first empty line (which
      is consumed) or at end of input. */
  function ReadHeaderLines(data: seq<byte>, pos: nat): (r: (seq<string>, nat))
    requires pos <= |data|
    ensures pos <= r.1 <= |data|
    ensures forall i :: 0 <= i < |r.0| ==> r.0[i] != ""
    decreases |data| - pos
  {
    var read := MailUtils.ReadLine(data, pos);
    if read.0.None? || read.0.value == "" then ([], read.1)
    else
      var rest := ReadHeaderLines(data, read.1);
      ([read.0.value] + rest.0, rest.1)
  }

  lemma {:induction false} EncodeLineAscii(s: string)
    requires IsLineText(s)
    ensures AsciiEncode(s + "\r\n") == AsciiEncode(s) + [CR, LF]
    ensures MailUtils.NoCrlf(AsciiEncode(s))
    ensures AsciiDecode(AsciiEncode(s)) == s
  {
    AsciiEncodeAppend(s, "\r\n");
    AsciiRoundTrip(s);
    assert AsciiEncode("\r\n") == [CR, LF];
    var e := AsciiEncode(s);
    forall k | 1 <= k < |e|
      ensures !(e[k - 1] == CR && e[k] == LF)
    {
      AsciiEncodeAt(s, k - 1);
      AsciiEncodeAt(s, k);
    }
  }

  /** The line `s` and its CR LF are written at `pos`. */
  predicate LineAt(data: seq<byte>, pos: nat, s: string) {
    pos + |s| + 2 <= |data| && data[pos..pos + |s| + 2] == AsciiEncode(s + "\r\n")
  }

  /** The header lines and the closing empty line are written from `pos` on. */
  predicate HeaderBlockAt(data: seq<byte>, pos: nat, lines: seq<string>)
    decreases |lines|
  {
    if lines == [] then LineAt(data, pos, "")
    else IsLineText(lines[0]) && lines[0] != "" && LineAt(data, pos, lines[0])
         && HeaderBlockAt(data, pos + |lines[0]| + 2, lines[1..])
  }

  /** A line written with its CR LF at `pos` reads back as itself. */
  lemma {:induction false} ReadLineAt(data: seq<byte>, pos: nat, s: string)
    requires IsLineText(s) && LineAt(data, pos, s)
    ensures MailUtils.ReadLine(data, pos) == (Some(s), pos + |s| + 2)
  {
    EncodeLineAscii(s);
    var line := AsciiEncode(s);
    assert data == data[..pos] + line + [CR, LF] + data[pos + |s| + 2..];
    MailUtils.ReadLineOfFramed(data[..pos], line, data[pos + |s| + 2..]);
  }

  /** One step of the header loop: a non-empty line written at `pos` is kept
      and reading goes on after it. */
  lemma {:induction false} ReadHeaderLineAt(data: seq<byte>, pos: nat, s: string)
    requires IsLineText(s) && s != "" && LineAt(data, pos, s)
    ensures ReadHeaderLines(data, pos)
         == ([s] + ReadHeaderLines(data, pos + |s| + 2).0, ReadHeaderLines(data, pos + |s| + 2).1)
  {
    ReadLineAt(data, pos, s);
  }

  /** Where a header block of these lines starting at `pos` ends. */
  function BlockEnd(pos: nat, lines: seq<string>): (end: nat)
    ensures end >= pos + 2
    decreases |lines|
  {
    if lines == [] then pos + 2 else BlockEnd(pos + |lines[0]| + 2, lines[1..])
  }

  lemma {:induction false} BlockEndIsEncodedLength(pos: nat, lines: seq<string>)
    ensures BlockEnd(pos, lines) == pos + |EncodeLines(lines)| + 2
    decreases |lines|
  {
    if lines != [] {
      BlockEndIsEncodedLength(pos + |lines[0]| + 2, lines[1..]);
    }
  }

  /** Reading lines from `pos` yields these non-empty lines one after the
      other and then an empty line. */
  predicate LinesReadAt(data: seq<byte>, pos: nat, lines: seq<string>)
    decreases |lines|
  {
    pos <= |data|
    && if lines == [] then MailUtils.ReadLine(data, pos) == (Some(""), pos + 2)
       else lines[0] != "" && MailUtils.ReadLine(data, pos) == (Some(lines[0]), pos + |lines[0]| + 2)
            && LinesReadAt(data, pos + |lines[0]| + 2, lines[1..])
  }

  /** A written header block reads line by line as its lines. */
  lemma {:induction false} HeaderBlockReads(data: seq<byte>, pos: nat, lines: seq<string>)
    requires HeaderBlockAt(data, pos, lines)
    ensures LinesReadAt(data, pos, lines)
    decreases |lines|
  {
    if lines == [] {
      ReadLineAt(data, pos, "");
    } else {
      ReadLineAt(data, pos, lines[0]);
      HeaderBlockReads(data, pos + |lines[0]| + 2, lines[1..]);
    }
  }

  /** The header loop collects exactly such lines. */
  lemma {:induction false} ReadHeaderLinesOf(data: seq<byte>, pos: nat, lines: seq<string>)
    requires LinesReadAt(data, pos, lines)
    ensures BlockEnd(pos, lines) <= |data|
    ensures ReadHeaderLines(data, pos) == (lines, BlockEnd(pos, lines))
    decreases |lines|
  {
    if lines != [] {
      ReadHeaderLinesOf(data, pos + |lines[0]| + 2, lines[1..]);
      assert [lines[0]] + lines[1..] == lines;
    }
  }

  /** The header loop reads a written header block back line by line. */
  lemma {:induction false} ReadHeaderBlock(data: seq<byte>, pos: nat, lines: seq<string>, end: nat)
    requires HeaderBlockAt(data, pos, lines)
    requires end == pos + |EncodeLines(lines)| + 2
    ensures end <= |data|
    ensures ReadHeaderLines(data, pos) == (lines, end)
  {
    HeaderBlockReads(data, pos, lines);
    ReadHeaderLinesOf(data, pos, lines);
    BlockEndIsEncodedLength(pos, lines);
  }

  /** A slice holding `a + b` holds `a`, then `b`. */
  lemma {:induction false} SliceSplit(data: seq<byte>, pos: nat, a: seq<byte>, b: seq<byte>)
    requires pos + |a| + |b| <= |data| && data[pos..pos + |a| + |b|] == a + b
    ensures data[pos..pos + |a|] == a && data[pos + |a|..pos + |a| + |b|] == b
  {
    assert data[pos..pos + |a|] == data[pos..pos + |a| + |b|][..|a|];
    assert data[pos + |a|..pos + |a| + |b|] == data[pos..pos + |a| + |b|][|a|..];
  }

  /** `EncodeLines` followed by an empty line is a header block. */
  lemma {:induction false} EncodedHeaderBlock(data: seq<byte>, pos: nat, lines: seq<string>)
    requires forall i :: 0 <= i < |lines| ==> IsLineText(lines[i]) && lines[i] != ""
    requires pos + |EncodeLines(lines)| + 2 <= |data|
    requires data[pos..pos + |EncodeLines(lines)| + 2] == EncodeLines(lines) + AsciiEncode("\r\n")
    ensures HeaderBlockAt(data, pos, lines)
    decreases |lines|
  {
    if lines == [] {
      assert "" + "\r\n" == "\r\n";
    } else {
      var head := AsciiEncode(lines[0] + "\r\n");
      var tail := EncodeLines(lines[1..]);
      var crlf := AsciiEncode("\r\n");
      assert EncodeLines(lines) + crlf == head + (tail + crlf);
      SliceSplit(data, pos, head, tail + crlf);
      EncodedHeaderBlock(data, pos + |head|, lines[1..]);
    }
  }

  /** A frame holds its first line at 0. */
  lemma {:induction false} FrameFirstLine(first: string, headers: seq<string>, body: seq<byte>)
    ensures LineAt(Frame(first, headers, body), 0, first)
  {
    var data := Frame(first, headers, body);
    var head := AsciiEncode(first + "\r\n");
    assert data == head + (EncodeLines(headers) + AsciiEncode("\r\n") + body);
    assert data[0..|first| + 2] == head;
  }

  /** A frame holds its header block right after the first line. */
  lemma {:induction false} FrameLayout(first: string, headers: seq<string>, body: seq<byte>)
    requires forall i :: 0 <= i < |headers| ==> IsLineText(headers[i]) && headers[i] != ""
    ensures var data := Frame(first, headers, body);
      |data| == |first| + 2 + |EncodeLines(headers)| + 2 + |body|
      && HeaderBlockAt(data, |first| + 2, headers)
  {
    var data := Frame(first, headers, body);
    var head := AsciiEncode(first + "\r\n");
    var rest := EncodeLines(headers) + AsciiEncode("\r\n");
    assert data == head + rest + body;
    assert data[|first| + 2..|first| + 2 + |rest|] == rest;
    EncodedHeaderBlock(data, |first| + 2, headers);
  }

  /** The first line of a frame reads back as itself. */
  lemma {:induction false} ReadFrameFirst(first: string, headers: seq<string>, body: seq<byte>)
    requires IsLineText(first)
    requires forall i :: 0 <= i < |headers| ==> IsLineText(headers[i]) && headers[i] != ""
    ensures MailUtils.ReadLine(Frame(first, headers, body), 0) == (Some(first), |first| + 2)
  {
    FrameFirstLine(first, headers, body);
    ReadLineAt(Frame(first, headers, body), 0, first);
  }

  /** After the first line, the header loop reads exactly the header lines and
      leaves the body bytes. */
  lemma {:induction false} ReadFrameHeaders(first: string, headers: seq<string>, body: seq<byte>)
    requires IsLineText(first)
    requires forall i :: 0 <= i < |headers| ==> IsLineText(headers[i]) && headers[i] != ""
    ensures var data := Frame(first, headers, body);
      ReadHeaderLines(data, |first| + 2) == (headers, |data| - |body|)
  {
    var data := Frame(first, headers, body);
    FrameLayout(first, headers, body);
    ReadHeaderBlock(data, |first| + 2, headers, |data| - |body|);
  }

  // ---------------------------------------------------------------------------
  // Status line: `split("\\s+", 3)`
  // ---------------------------------------------------------------------------

  /** The chars of the regex class `\s`. */
  predicate IsRegexSpace(c: char) {
    c == ' ' || c == '\t' || c == '\n' || c == '\U{000B}' || c == '\U{000C}' || c == '\r'
  }

  predicate NoRegexSpace(s: string) {
    forall i :: 0 <= i < |s| ==> !IsRegexSpace(s[i])
  }

  /** The first position holding a `\s` char, or `|s|`. */
  function FirstSpace(s: string): (i: nat)
    ensures i <= |s|
    ensures i < |s| ==> IsRegexSpace(s[i])
    ensures forall k :: 0 <= k < i ==> !IsRegexSpace(s[k])
  {
    if s == [] || IsRegexSpace(s[0]) then 0 else 1 + FirstSpace(s[1..])
  }

  /** The end of the maximal run of `\s` chars starting at `i`. */
  function SpaceRunEnd(s: string, i: nat): (j: nat)
    requires i <= |s|
    ensures i <= j <= |s|
    ensures forall k :: i <= k < j ==> IsRegexSpace(s[k])
    ensures j < |s| ==> !IsRegexSpace(s[j])
    decreases |s| - i
  {
    if i < |s| && IsRegexSpace(s[i]) then SpaceRunEnd(s, i + 1) else i
  }

  /** `s.split("\\s+", limit)` for a positive limit: at most `limit - 1` greedy
      matches, the remainder kept whole (trailing empty parts included), and a
      leading empty part when `s` starts with whitespace. */
  function SplitSpaces(s: string, limit: nat): (parts: seq<string>)
    requires limit >= 1
    ensures 1 <= |parts| <= limit
    ensures forall k :: 0 <= k < |parts| - 1 ==> NoRegexSpace(parts[k])
    ensures forall k :: 0 < k < |parts| ==> parts[k] == [] || !IsRegexSpace(parts[k][0])
    ensures limit > 1 && s != [] && IsRegexSpace(s[0]) ==> |parts| >= 2 && parts[0] == []
    ensures |parts| == 1 ==> parts[0] == s
    decreases limit
  {
    var i := FirstSpace(s);
    if limit == 1 || i == |s| then [s]
    else [s[..i]] + SplitSpaces(s[SpaceRunEnd(s, i)..], limit - 1)
  }

  datatype StatusLine = StatusLine(protocol: string, code: int, statusText: string)

  /** `safeParseInt`: `Integer.parseInt` of the trimmed text, or `def`. */
  function SafeParseInt(s: string, def: int): (r: int)
    ensures r != def ==> ParseInt(Trim(s)) == Some(r)
  {
    match ParseInt(Trim(s))
    case Some(v) => v
    case None => def
  }

  /** `safeParseInt` is the same reading as `LangUtils.parseIntOr` on a
      non-null string. */
  lemma {:induction false} SafeParseIntIsParseIntOr(s: string, def: int)
    ensures SafeParseInt(s, def) == LangUtils.ParseIntOr(Some(s), def)
  {
  }

  /** `parseStatusLine`: three whitespace-separated fields, the first starting
      with `SPAMD/`, the second a 32-bit integer other than the sentinel
      `Integer.MIN_VALUE`. */
  function ParseStatusLine(s: string): (r: Result<StatusLine, SpamdError>)
    ensures r.Success? ==> IsPrefix("SPAMD/", r.value.protocol) && NoRegexSpace(r.value.protocol)
    ensures r.Success? ==> INT_MIN < r.value.code <= INT_MAX
    ensures r.Success? ==> r.value.statusText == [] || !IsRegexSpace(r.value.statusText[0])
    ensures r.Failure? ==> r.error == InvalidStatusLine(s) || r.error == InvalidStatusCode(s)
  {
    var parts := SplitSpaces(s, 3);
    if |parts| < 3 || !IsPrefix("SPAMD/", parts[0]) then Failure(InvalidStatusLine(s))
    else
      var code := SafeParseInt(parts[1], INT_MIN);
      if code == INT_MIN then Failure(InvalidStatusCode(s))
      else Success(StatusLine(parts[0], code, parts[2]))
  }

  /** A printed integer is one word, with nothing to trim. */
  lemma {:induction false} PrintedIntIsWord(n: int)
    ensures IntToString(n) != [] && NoRegexSpace(IntToString(n)) && IsTrimmed(IntToString(n))
  {
    NatToStringDigits(if n < 0 then -n else n);
    var s := IntToString(n);
    assert forall i :: 0 <= i < |s| ==> s[i] == '-' || IsDigit(s[i]);
  }

  /** `safeParseInt` reads a printed 32-bit integer back, whatever the default. */
  lemma {:induction false} SafeParseIntOfPrinted(n: int, def: int)
    requires INT_MIN <= n <= INT_MAX
    ensures SafeParseInt(IntToString(n), def) == n
  {
    PrintedIntIsWord(n);
    TrimOfTrimmed(IntToString(n));
    ParseIntToString(n);
  }

  /** Splitting `a + " " + b` where `a` holds no whitespace and `b` does not
      start with it. */
  lemma {:induction false} SplitAtSingleSpace(a: string, b: string, limit: nat)
    requires limit >= 2 && NoRegexSpace(a)
    requires b == [] || !IsRegexSpace(b[0])
    ensures SplitSpaces(a + " " + b, limit) == [a] + SplitSpaces(b, limit - 1)
  {
    var s := a + " " + b;
    assert forall k :: 0 <= k < |a| ==> s[k] == a[k];
    assert s[|a|] == ' ';
    assert FirstSpace(s) == |a|;
    assert s[|a| + 1..] == b;
    assert SpaceRunEnd(s, |a| + 1) == |a| + 1;
    assert SpaceRunEnd(s, |a|) == |a| + 1;
    assert s[..|a|] == a;
  }

  /** The printed status line splits into its three fields. */
  lemma {:induction false} SplitStatusLine(protocol: string, c: string, text: string)
    requires NoRegexSpace(protocol) && NoRegexSpace(c) && c != []
    requires text == [] || !IsRegexSpace(text[0])
    ensures SplitSpaces(protocol + " " + c + " " + text, 3) == [protocol, c, text]
  {
    var rest := c + " " + text;
    assert protocol + " " + c + " " + text == protocol + " " + rest;
    assert !IsRegexSpace(rest[0]) by {
      assert rest[0] == c[0];
    }
    SplitAtSingleSpace(protocol, rest, 3);
    SplitInTwo(c, text);
    assert [protocol] + [c, text] == [protocol, c, text];
  }

  lemma {:induction false} SplitInTwo(c: string, text: string)
    requires NoRegexSpace(c)
    requires text == [] || !IsRegexSpace(text[0])
    ensures SplitSpaces(c + " " + text, 2) == [c, text]
  {
    SplitAtSingleSpace(c, text, 2);
    assert SplitSpaces(text, 1) == [text];
  }

  /** Round trip: a status line printed as `<protocol> <code> <text>` parses back
      to its three fields. */
  lemma {:induction false} ParseStatusLineOfPrinted(protocol: string, code: int, text: string)
    requires IsPrefix("SPAMD/", protocol) && NoRegexSpace(protocol)
    requires INT_MIN < code <= INT_MAX
    requires text == [] || !IsRegexSpace(text[0])
    ensures ParseStatusLine(protocol + " " + IntToString(code) + " " + text)
         == Success(StatusLine(protocol, code, text))
  {
    var c := IntToString(code);
    PrintedIntIsWord(code);
    SafeParseIntOfPrinted(code, INT_MIN);
    SplitStatusLine(protocol, c, text);
  }

  // ---------------------------------------------------------------------------
  // Headers: a TreeMap with CASE_INSENSITIVE_ORDER
  // ---------------------------------------------------------------------------

  /** A parsed header line: its name and its value, both trimmed. */
  datatype Field = Field(name: string, value: string)

  /** A header line with a colon after at least one char: split at its first
      colon, both sides trimmed; any other line is ignored. */
  function HeaderField(h: string): (f: Option<Field>)
    ensures f.Some? <==> IndexOfChar(h, ':') > 0
    ensures f.Some? ==> IsTrimmed(f.value.name) && IsTrimmed(f.value.value)
  {
    var idx := IndexOfChar(h, ':');
    if idx > 0 then Some(SplitField(h, idx)) else None
  }

  /** The trimmed text before and after the colon at `idx`. */
  function SplitField(h: string, idx: nat): (f: Field)
    requires idx < |h|
    ensures IsTrimmed(f.name) && IsTrimmed(f.value)
  {
    Field(Trim(h[..idx]), Trim(h[idx + 1..]))
  }

  /** The header lines parsed one by one, in order. */
  function Fields(hs: seq<string>): (fs: seq<Option<Field>>)
    ensures |fs| == |hs|
    decreases |hs|
  {
    if hs == [] then [] else Fields(hs[..|hs| - 1]) + [HeaderField(hs[|hs| - 1])]
  }

  lemma {:induction false} FieldsAt(hs: seq<string>, i: nat)
    requires i < |hs|
    ensures Fields(hs)[i] == HeaderField(hs[i])
    decreases |hs|
  {
    if i < |hs| - 1 {
      FieldsAt(hs[..|hs| - 1], i);
    }
  }

  /** The parsed fields put into the map one after the other; a name is looked
      up ignoring case, so its key is the lower-cased name. */
  function FieldMap(fs: seq<Option<Field>>): (m: map<string, string>)
    decreases |fs|
  {
    if fs == [] then map[]
    else
      var m := FieldMap(fs[..|fs| - 1]);
      match fs[|fs| - 1]
      case None => m
      case Some(f) => m[ToLower(f.name) := f.value]
  }

  /** The header map of `readResponse`. */
  function HeaderMap(hs: seq<string>): map<string, string> {
    FieldMap(Fields(hs))
  }

  /** `headers.get(name)`, null as `None`. */
  function Lookup(headers: map<string, string>, name: string): (v: Option<string>)
    ensures v.Some? <==> ToLower(name) in headers
  {
    if ToLower(name) in headers then Some(headers[ToLower(name)]) else None
  }

  /** Field `i` carries a name equal to `key` ignoring case. */
  predicate NamedAt(fs: seq<Option<Field>>, i: int, key: string) {
    0 <= i < |fs| && fs[i].Some? && ToLower(fs[i].value.name) == key
  }

  /** The index of the last of the first `n` fields named `key`, or -1. */
  function LastNamedBefore(fs: seq<Option<Field>>, key: string, n: nat): (i: int)
    requires n <= |fs|
    ensures -1 <= i < n
    ensures i >= 0 ==> NamedAt(fs, i, key)
    ensures forall j :: i < j < n ==> !NamedAt(fs, j, key)
    decreases n
  {
    if n == 0 then -1
    else if NamedAt(fs, n - 1, key) then n - 1
    else LastNamedBefore(fs, key, n - 1)
  }

  /** The map of the first `n` fields holds a name exactly when one of them
      carries it, with the value of the LAST such field. */
  lemma {:induction false} FieldMapLastWins(fs: seq<Option<Field>>, key: string, n: nat)
    requires n <= |fs|
    ensures var i := LastNamedBefore(fs, key, n);
      (key in FieldMap(fs[..n]) <==> i >= 0)
      && (i >= 0 ==> FieldMap(fs[..n])[key] == fs[i].value.value)
    decreases n
  {
    if n > 0 {
      var pre := fs[..n];
      assert pre[n - 1] == fs[n - 1];
      assert pre[..n - 1] == fs[..n - 1];
      FieldMapLastWins(fs, key, n - 1);
    }
  }

  /** Header lookup ignores case, and a later duplicate overwrites an earlier
      one: a name is found exactly when some line carries it, and then with the
      value of the LAST such line. */
  lemma {:induction false} LookupLastWins(hs: seq<string>, name: string)
    ensures var i := LastNamedBefore(Fields(hs), ToLower(name), |hs|);
      (Lookup(HeaderMap(hs), name).Some? <==> i >= 0)
      && (i >= 0 ==> HeaderField(hs[i]).Some?
                     && EqualsIgnoreCase(HeaderField(hs[i]).value.name, name)
                     && Lookup(HeaderMap(hs), name).value == HeaderField(hs[i]).value.value)
  {
    var fs := Fields(hs);
    var key := ToLower(name);
    FieldMapLastWins(fs, key, |hs|);
    assert fs[..|hs|] == fs;
    var i := LastNamedBefore(fs, key, |hs|);
    if i >= 0 {
      FieldsAt(hs, i);
      ToLowerIdempotent(name);
    }
  }

  /** Trimming text that is already trimmed, behind one space. */
  lemma {:induction false} TrimAfterSpace(x: string)
    requires IsTrimmed(x)
    ensures Trim(" " + x) == x
  {
    if x == [] {
      assert TrimStart(" ") == [];
    } else {
      LangUtils.TrimStartDropsPad(" ", x);
    }
  }

  /** Trimming text that is already trimmed, before one space. */
  lemma {:induction false} TrimBeforeSpace(x: string)
    requires IsTrimmed(x)
    ensures Trim(x + " ") == x
  {
    if x == [] {
      assert TrimStart(" ") == [];
    } else {
      LangUtils.TrimEndDropsPad(x, " ");
      TrimOfTrimmed(x);
    }
  }

  /** A header line printed as `<name>: <value>` parses back to its name and
      value. */
  lemma {:induction false} HeaderFieldOfPrinted(name: string, value: string)
    requires name != [] && IsTrimmed(name) && IsTrimmed(value)
    requires forall i :: 0 <= i < |name| ==> name[i] != ':'
    ensures HeaderField(name + ": " + value) == Some(Field(name, value))
  {
    var h := name + ": " + value;
    assert ':' !in name;
    assert h == name + [':'] + (" " + value);
    FirstSeparator(name, " " + value, ':');
    assert h[..|name|] == name;
    assert h[|name| + 1..] == " " + value;
    TrimOfTrimmed(name);
    TrimAfterSpace(value);
  }

  // ---------------------------------------------------------------------------
  // readResponse
  // ---------------------------------------------------------------------------

  /** What `readResponse` returns; `body` is null when no `Content-length` was
      sent, and `raw` is the text rebuilt for diagnostics. */
  datatype Response = Response(protocol: string, code: int, statusText: string,
                               headers: map<string, string>, body: Option<string>, raw: string)

  /** `new String(bytes, UTF_8)`. */
  type Utf8Decoder = seq<byte> -> string

  /** The body announced by `Content-length`, read from `pos`: none without the
      header; a `ProtocolException` for a negative or unparseable length; an
      `EOFException` when fewer bytes remain; else exactly that many bytes. */
  function ReadBody(data: seq<byte>, pos: nat, headers: map<string, string>): (r: Result<Option<seq<byte>>, SpamdError>)
    requires pos <= |data|
    ensures r.Failure? ==> r.error.InvalidContentLength? || r.error.TruncatedBody?
    ensures r.Success? && r.value.Some? ==>
              pos + |r.value.value| <= |data| && r.value.value == data[pos..pos + |r.value.value|]
  {
    match Lookup(headers, "Content-length")
    case None => Success(None)
    case Some(cl) =>
      var len := SafeParseInt(cl, -1);
      if len < 0 then Failure(InvalidContentLength(cl))
      else if |data| - pos < len then Failure(TruncatedBody(len, |data| - pos))
      else Success(Some(data[pos..pos + len]))
  }

  /** Each line followed by CR LF, as the diagnostics text joins them. */
  function CrlfLines(hs: seq<string>): string
    decreases |hs|
  {
    if hs == [] then "" else CrlfLines(hs[..|hs| - 1]) + hs[|hs| - 1] + "\r\n"
  }

  /** The raw response text: status line, header lines, empty line, body. */
  function Raw(statusLine: string, hs: seq<string>, body: Option<string>): string {
    statusLine + "\r\n" + CrlfLines(hs) + "\r\n" + body.GetOr("")
  }

  /** `readResponse` over the reply bytes: the status line (an `EOFException`
      when there is none), the header lines up to the first empty line or end of
      input, then the status line is parsed, the headers mapped and the body
      read. */
  function ParseResponse(data: seq<byte>, decode: Utf8Decoder): (r: Result<Response, SpamdError>)
    ensures data == [] ==> r == Failure(NoStatusLine)
    ensures r.Success? ==> IsPrefix("SPAMD/", r.value.protocol) && INT_MIN < r.value.code <= INT_MAX
  {
    match ResponseLines(data)
    case None => Failure(NoStatusLine)
    case Some(parts) => ResponseOf(parts.0, parts.1, data, parts.2, decode)
  }

  /** The status line, the header lines and the position where the body
      starts; `None` when the reply has no status line. */
  function ResponseLines(data: seq<byte>): (r: Option<(string, seq<string>, nat)>)
    ensures r.None? <==> data == []
    ensures r.Some? ==> r.value.2 <= |data|
  {
    var first := MailUtils.ReadLine(data, 0);
    if first.0.None? then None
    else
      var hs := ReadHeaderLines(data, first.1);
      Some((first.0.value, hs.0, hs.1))
  }

  /** `readResponse` over `data` returns `resp`. */
  predicate Answers(data: seq<byte>, decode: Utf8Decoder, resp: Response) {
    ParseResponse(data, decode) == Success(resp)
  }

  /** The rest of `readResponse` once the status line and the header lines are
      read and the body starts at `end`. */
  function ResponseOf(statusLine: string, hs: seq<string>, data: seq<byte>, end: nat, decode: Utf8Decoder)
    : (r: Result<Response, SpamdError>)
    requires end <= |data|
    ensures r.Success? ==> IsPrefix("SPAMD/", r.value.protocol) && INT_MIN < r.value.code <= INT_MAX
  {
    var status :- ParseStatusLine(statusLine);
    var headers := HeaderMap(hs);
    var bytes :- ReadBody(data, end, headers);
    var body := if bytes.Some? then Some(decode(bytes.value)) else None;
    Success(Response(status.protocol, status.code, status.statusText, headers, body,
                     Raw(statusLine, hs, body)))
  }

  /** One step of `ReadHeaderLines`: the line read at `pos` and what follows. */
  lemma {:induction false} ReadHeaderLinesStep(data: seq<byte>, pos: nat, line: Option<string>, next: nat)
    requires pos <= |data| && (line, next) == MailUtils.ReadLine(data, pos)
    ensures line.None? || line.value == "" ==> ReadHeaderLines(data, pos) == ([], next)
    ensures line.Some? && line.value != "" ==>
              next <= |data| &&
              ReadHeaderLines(data, pos) == ([line.value] + ReadHeaderLines(data, next).0, ReadHeaderLines(data, next).1)
  {
  }

  /** The header-reading loop of `readResponse`: lines up to the first empty
      line or the end of input. */
  method CollectHeaderLines(data: seq<byte>, start: nat) returns (lines: seq<string>, pos: nat)
    requires start <= |data|
    ensures (lines, pos) == ReadHeaderLines(data, start)
  {
    lines := [];
    pos := start;
    var reading := true;
    ghost var rest := ReadHeaderLines(data, pos);
    assert lines + rest.0 == rest.0;
    while reading
      invariant start <= pos <= |data|
      invariant reading ==> rest == ReadHeaderLines(data, pos)
      invariant reading ==> ReadHeaderLines(data, start) == (lines + rest.0, rest.1)
      invariant !reading ==> ReadHeaderLines(data, start) == (lines, pos)
      decreases |data| - pos, reading
    {
      var line, next := MailUtils.ReadLineCRLF(data, pos);
      ReadHeaderLinesStep(data, pos, line, next);
      if line.None? || line.value == "" {
        reading := false;
        assert rest == ([], next);
        assert lines + rest.0 == lines;
      } else {
        var after := ReadHeaderLines(data, next);
        assert lines + ([line.value] + after.0) == (lines + [line.value]) + after.0;
        lines := lines + [line.value];
        rest := after;
      }
      pos := next;
    }
  }

  /** Adding one header line to the map: a line with a name overrides the entry
      for that name, ignoring case; one without leaves the map as it was. */
  lemma {:induction false} HeaderMapAppend(hs: seq<string>, h: string)
    ensures HeaderField(h).None? ==> HeaderMap(hs + [h]) == HeaderMap(hs)
    ensures HeaderField(h).Some? ==>
              HeaderMap(hs + [h]) == HeaderMap(hs)[ToLower(HeaderField(h).value.name) := HeaderField(h).value.value]
  {
    var longer := hs + [h];
    assert longer[..|longer| - 1] == hs && longer[|longer| - 1] == h;
    var fs := Fields(longer);
    assert fs == Fields(hs) + [HeaderField(h)];
    assert fs[..|fs| - 1] == Fields(hs) && fs[|fs| - 1] == HeaderField(h);
    assert HeaderMap(longer) == FieldMap(fs);
  }

  /** One more line of a header block is one more map update. */
  lemma {:induction false} HeaderMapStep(lines: seq<string>, i: nat)
    requires i < |lines|
    ensures var field := HeaderField(lines[i]);
      HeaderMap(lines[..i + 1])
        == if field.Some? then HeaderMap(lines[..i])[ToLower(field.value.name) := field.value.value]
           else HeaderMap(lines[..i])
  {
    HeaderMapAppend(lines[..i], lines[i]);
    assert lines[..i + 1] == lines[..i] + [lines[i]];
  }

  /** The loop of `readResponse` filling the case-insensitive header map. */
  method BuildHeaderMap(lines: seq<string>) returns (headers: map<string, string>)
    ensures headers == HeaderMap(lines)
  {
    headers := map[];
    var i := 0;
    while i < |lines|
      invariant 0 <= i <= |lines|
      invariant headers == HeaderMap(lines[..i])
    {
      var field := HeaderField(lines[i]);
      HeaderMapStep(lines, i);
      if field.Some? {
        headers := headers[ToLower(field.value.name) := field.value.value];
      }
      i := i + 1;
    }
    assert lines[..i] == lines;
  }

  /** The loop of `readResponse` rebuilding the raw text. */
  method BuildRaw(statusLine: string, lines: seq<string>, body: Option<string>) returns (raw: string)
    ensures raw == Raw(statusLine, lines, body)
  {
    raw := statusLine + "\r\n";
    var k := 0;
    while k < |lines|
      invariant 0 <= k <= |lines|
      invariant raw == statusLine + "\r\n" + CrlfLines(lines[..k])
    {
      assert lines[..k + 1][..k] == lines[..k];
      raw := raw + lines[k] + "\r\n";
      k := k + 1;
    }
    assert lines[..k] == lines;
    raw := raw + "\r\n" + (if body.Some? then body.value else "");
  }

  /** `readResponse`: the status line, the header loop, the header map, the body
      read with `readNBytes`, and the raw text. */
  method ReadResponse(data: seq<byte>, decode: Utf8Decoder) returns (r: Result<Response, SpamdError>)
    ensures r == ParseResponse(data, decode)
  {
    var statusLine, pos := MailUtils.ReadLineCRLF(data, 0);
    if statusLine.None? {
      return Failure(NoStatusLine);
    }
    var headerLines, end := CollectHeaderLines(data, pos);
    assert ResponseLines(data) == Some((statusLine.value, headerLines, end));
    var status := ParseStatusLine(statusLine.value);
    if status.Failure? {
      return Failure(status.error);
    }
    var headers := BuildHeaderMap(headerLines);
    var bytes := ReadBody(data, end, headers);
    if bytes.Failure? {
      return Failure(bytes.error);
    }
    var body := if bytes.value.Some? then Some(decode(bytes.value.value)) else None;
    var raw := BuildRaw(statusLine.value, headerLines, body);
    return Success(Response(status.value.protocol, status.value.code, status.value.statusText,
                            headers, body, raw));
  }

  // ---------------------------------------------------------------------------
  // parseSpamHeader
  // ---------------------------------------------------------------------------

  /** `Double.parseDouble`: `None` where it throws. */
  type DoubleParser = string -> Option<real>

  /** The verdict carried by a `Spam:` header. */
  datatype ScoreLine = ScoreLine(isSpam: bool, score: real, threshold: real)

  /** `v.regionMatches(true, 0, word, 0, |word|)`. */
  predicate StartsWithIgnoreCase(v: string, word: string) {
    |word| <= |v| && EqualsIgnoreCase(v[..|word|], word)
  }

  /** The boolean at the head of the trimmed header value, and the trimmed text
      after it with one leading `;` dropped; `None` when the value starts with
      neither `true` nor `false` in any letter case. */
  function Verdict(headerValue: string): (r: Option<(bool, string)>)
    ensures r.Some? <==> StartsWithIgnoreCase(Trim(headerValue), "true")
                         || StartsWithIgnoreCase(Trim(headerValue), "false")
    ensures r.Some? ==> (r.value.0 <==> StartsWithIgnoreCase(Trim(headerValue), "true"))
    ensures r.Some? ==> IsTrimmed(r.value.1)
  {
    var v := Trim(headerValue);
    if StartsWithIgnoreCase(v, "true") then Some((true, DropSemicolon(Trim(v[4..]))))
    else if StartsWithIgnoreCase(v, "false") then Some((false, DropSemicolon(Trim(v[5..]))))
    else None
  }

  /** One leading `;` removed, and the rest trimmed again. */
  function DropSemicolon(rest: string): (r: string)
    ensures IsTrimmed(rest) ==> IsTrimmed(r)
  {
    if IsPrefix(";", rest) then Trim(rest[1..]) else rest
  }

  /** The two sides of the first `/`, trimmed and stripped of every `score=`
      and `required=` respectively; `None` when there is no `/`. */
  function ScoreTokens(v: string): (r: Option<(string, string)>)
    ensures r.Some? <==> IndexOfChar(v, '/') >= 0
    ensures r.Some? ==> IsTrimmed(r.value.0) && IsTrimmed(r.value.1)
  {
    var slash := IndexOfChar(v, '/');
    if slash < 0 then None
    else Some((Trim(RemoveAll(Trim(v[..slash]), "score=")),
               Trim(RemoveAll(Trim(v[slash + 1..]), "required="))))
  }

  /** `parseSpamHeader`: the verdict, then `<score> / <threshold>`, each side
      read by `parseDouble`; each failure names the whole header value. */
  function ParseSpamHeader(headerValue: string, parseDouble: DoubleParser): (r: Result<ScoreLine, SpamdError>)
    ensures !StartsWithIgnoreCase(Trim(headerValue), "true") && !StartsWithIgnoreCase(Trim(headerValue), "false")
            ==> r == Failure(BadSpamBoolean(headerValue))
    ensures r.Success? ==> (r.value.isSpam <==> StartsWithIgnoreCase(Trim(headerValue), "true"))
    ensures r.Failure? ==> (r.error.BadSpamBoolean? || r.error.NoScoreThreshold? || r.error.InvalidScore?
                            || r.error.InvalidThreshold?) && r.error.header == headerValue
  {
    match Verdict(headerValue)
    case None => Failure(BadSpamBoolean(headerValue))
    case Some(verdict) =>
      var isSpam := verdict.0;
      match ScoreTokens(verdict.1)
      case None => Failure(NoScoreThreshold(headerValue))
      case Some(tokens) =>
        match parseDouble(tokens.0)
        case None => Failure(InvalidScore(headerValue))
        case Some(score) =>
          match parseDouble(tokens.1)
          case None => Failure(InvalidThreshold(headerValue))
          case Some(threshold) => Success(ScoreLine(isSpam, score, threshold))
  }

  /** The header spamd sends: `True ; <score> / <threshold>` or `False ; ...`. */
  function SpamHeaderText(isSpam: bool, score: string, threshold: string): string {
    (if isSpam then "True" else "False") + " ; " + score + " / " + threshold
  }

  /** A number as spamd prints it: non-empty, trimmed, not starting with `;`,
      no `/`, and free of the `score=` and `required=` labels. */
  predicate IsNumberText(s: string) {
    s != [] && IsTrimmed(s) && s[0] != ';' && (forall i :: 0 <= i < |s| ==> s[i] != '/')
    && !Contains(s, "score=") && !Contains(s, "required=")
  }

  /** The verdict words spamd prints are told apart by the case-insensitive
      prefix tests. */
  lemma {:induction false} VerdictWord(isSpam: bool, tail: string)
    ensures var h := (if isSpam then "True" else "False") + tail;
            (StartsWithIgnoreCase(h, "true") <==> isSpam)
            && (!isSpam ==> StartsWithIgnoreCase(h, "false"))
  {
    var w := if isSpam then "True" else "False";
    var h := w + tail;
    assert h[..4] == w[..4];
    var low := ToLower(h[..4]);
    assert low[0] == LowerChar(w[0]) && low[3] == LowerChar(w[3]);
    if !isSpam {
      assert h[..5] == w;
      var low5 := ToLower(w);
      assert low5 == [LowerChar('F'), LowerChar('a'), LowerChar('l'), LowerChar('s'), LowerChar('e')];
    } else {
      assert low == [LowerChar('T'), LowerChar('r'), LowerChar('u'), LowerChar('e')];
    }
  }

  /** What follows the verdict word, ` ; <rest>`, reads back as the rest. */
  lemma {:induction false} AfterVerdict(rest: string)
    requires rest != [] && IsTrimmed(rest) && rest[0] != ';'
    ensures DropSemicolon(Trim(" ; " + rest)) == rest
  {
    var semi := "; " + rest;
    assert " ; " + rest == " " + semi;
    assert semi[|semi| - 1] == rest[|rest| - 1];
    TrimAfterSpace(semi);
    DropSemicolonOf(rest);
  }

  lemma {:induction false} DropSemicolonOf(rest: string)
    requires IsTrimmed(rest)
    ensures DropSemicolon("; " + rest) == rest
  {
    var semi := "; " + rest;
    assert IsPrefix(";", semi);
    assert semi[1..] == " " + rest;
    TrimAfterSpace(rest);
  }

  /** A trimmed header made of a verdict word and a tail reads as that verdict
      and the tail. */
  lemma {:induction false} VerdictOfWord(h: string, isSpam: bool, tail: string)
    requires Trim(h) == h
    requires h == (if isSpam then "True" else "False") + tail
    requires StartsWithIgnoreCase(h, "true") <==> isSpam
    requires !isSpam ==> StartsWithIgnoreCase(h, "false")
    ensures Verdict(h) == Some((isSpam, DropSemicolon(Trim(tail))))
  {
    if isSpam {
      assert h[4..] == tail;
    } else {
      assert h[5..] == tail;
    }
  }

  /** The verdict word, a spaced `;` and the rest read back as the verdict and
      the rest. */
  lemma {:induction false} VerdictOfPrinted(isSpam: bool, rest: string)
    requires rest != [] && IsTrimmed(rest) && rest[0] != ';'
    ensures Verdict((if isSpam then "True" else "False") + " ; " + rest) == Some((isSpam, rest))
  {
    var tail := " ; " + rest;
    var h := (if isSpam then "True" else "False") + tail;
    assert h == (if isSpam then "True" else "False") + " ; " + rest;
    assert h[|h| - 1] == rest[|rest| - 1];
    TrimOfTrimmed(h);
    VerdictWord(isSpam, tail);
    AfterVerdict(rest);
    VerdictOfWord(h, isSpam, tail);
  }

  /** `<score> / <threshold>` reads back as its two numbers. */
  lemma {:induction false} ScoreTokensOfPrinted(score: string, threshold: string)
    requires IsNumberText(score) && IsNumberText(threshold)
    ensures ScoreTokens(score + " / " + threshold) == Some((score, threshold))
  {
    var v := score + " / " + threshold;
    var left := score + " ";
    var right := " " + threshold;
    assert '/' !in left by {
      assert forall i :: 0 <= i < |left| ==> left[i] == ' ' || left[i] == score[i];
    }
    assert v == left + ['/'] + right;
    FirstSeparator(left, right, '/');
    assert v[..|left|] == left;
    assert v[|left| + 1..] == right;
    TrimBeforeSpace(score);
    TrimAfterSpace(threshold);
    CleanToken(score, "score=");
    CleanToken(threshold, "required=");
  }

  /** A trimmed number free of a label survives its removal unchanged. */
  lemma {:induction false} CleanToken(s: string, tag: string)
    requires IsTrimmed(s) && tag != [] && !Contains(s, tag)
    ensures Trim(RemoveAll(s, tag)) == s
  {
    TrimOfTrimmed(s);
  }

  /** Round trip: the header spamd prints for a verdict, a score and a
      threshold parses back to that verdict and to what `parseDouble` makes of
      the two numbers. */
  lemma {:induction false} ParseSpamHeaderOfPrinted(isSpam: bool, score: string, threshold: string, parseDouble: DoubleParser)
    requires IsNumberText(score) && IsNumberText(threshold)
    ensures var h := SpamHeaderText(isSpam, score, threshold);
            ParseSpamHeader(h, parseDouble)
            == if parseDouble(score).None? then Failure(InvalidScore(h))
               else if parseDouble(threshold).None? then Failure(InvalidThreshold(h))
               else Success(ScoreLine(isSpam, parseDouble(score).value, parseDouble(threshold).value))
  {
    var rest := score + " / " + threshold;
    assert SpamHeaderText(isSpam, score, threshold) == (if isSpam then "True" else "False") + " ; " + rest;
    assert IsTrimmed(rest);
    VerdictOfPrinted(isSpam, rest);
    ScoreTokensOfPrinted(score, threshold);
  }

  // ---------------------------------------------------------------------------
  // check and symbols
  // ---------------------------------------------------------------------------

  /** The spamd server behind the socket: the reply bytes it sends back for the
      request bytes written. */
  type Server = seq<byte> -> seq<byte>

  datatype CheckResult = CheckResult(ok: bool, isSpam: bool, score: Option<real>, threshold: Option<real>,
                                     rawResponse: string)

  datatype SymbolsResult = SymbolsResult(ok: bool, isSpam: bool, score: Option<real>, threshold: Option<real>,
                                         symbolsRaw: string, rawResponse: string)

  /** `ensureOk`: a `ProtocolException` for any code but 0. */
  function EnsureOk(r: Response): Result<Response, SpamdError> {
    if r.code != 0 then Failure(NotOk(r.code, r.statusText)) else Success(r)
  }

  /** `sendWithBody`: the request written, the reply read. */
  function SendWithBody(cmd: Command, body: seq<byte>, user: Option<string>, server: Server,
                        decode: Utf8Decoder): Result<Response, SpamdError>
  {
    ParseResponse(server(Request(cmd, body, user)), decode)
  }

  /** What `check` makes of a response: it must be OK and carry a `Spam`
      header, whose verdict, score and threshold it returns. */
  function CheckOf(resp: Response, parseDouble: DoubleParser): (r: Result<CheckResult, SpamdError>)
    ensures resp.code != 0 ==> r == Failure(NotOk(resp.code, resp.statusText))
    ensures resp.code == 0 && Lookup(resp.headers, "spam").None? ==> r == Failure(MissingSpamHeader)
    ensures r.Success? ==>
              resp.code == 0 && r.value.ok && r.value.rawResponse == resp.raw
              && r.value.score.Some? && r.value.threshold.Some?
              && Lookup(resp.headers, "spam").Some?
              && ParseSpamHeader(Lookup(resp.headers, "spam").value, parseDouble)
                 == Success(ScoreLine(r.value.isSpam, r.value.score.value, r.value.threshold.value))
  {
    var ok :- EnsureOk(resp);
    match Lookup(ok.headers, "spam")
    case None => Failure(MissingSpamHeader)
    case Some(h) =>
      var score :- ParseSpamHeader(h, parseDouble);
      Success(CheckResult(true, score.isSpam, Some(score.score), Some(score.threshold), ok.raw))
  }

  /** What `symbols` makes of a response: it must be OK; the `Spam` header is
      optional (not spam, no score, without it); the body is the symbol list. */
  function SymbolsOf(resp: Response, parseDouble: DoubleParser): (r: Result<SymbolsResult, SpamdError>)
    ensures resp.code != 0 ==> r == Failure(NotOk(resp.code, resp.statusText))
    ensures resp.code == 0 && Lookup(resp.headers, "spam").None? ==>
              r == Success(SymbolsResult(true, false, None, None, resp.body.GetOr(""), resp.raw))
    ensures r.Success? ==> resp.code == 0 && r.value.ok && r.value.symbolsRaw == resp.body.GetOr("")
                           && r.value.rawResponse == resp.raw
    ensures r.Success? && Lookup(resp.headers, "spam").Some? ==>
              r.value.score.Some? && r.value.threshold.Some?
              && ParseSpamHeader(Lookup(resp.headers, "spam").value, parseDouble)
                 == Success(ScoreLine(r.value.isSpam, r.value.score.value, r.value.threshold.value))
  {
    var ok :- EnsureOk(resp);
    var score :- match Lookup(ok.headers, "spam")
                 case None => Success(None)
                 case Some(h) => (var sl :- ParseSpamHeader(h, parseDouble); Success(Some(sl)));
    Success(SymbolsResult(true, score.Some? && score.value.isSpam,
                          if score.Some? then Some(score.value.score) else None,
                          if score.Some? then Some(score.value.threshold) else None,
                          ok.body.GetOr(""), ok.raw))
  }

  /** `check(byte[])`. */
  function Check(body: seq<byte>, user: Option<string>, server: Server, decode: Utf8Decoder,
                 parseDouble: DoubleParser): Result<CheckResult, SpamdError>
  {
    var resp :- SendWithBody(CHECK, body, user, server, decode);
    CheckOf(resp, parseDouble)
  }

  /** `symbols(byte[])`. */
  function Symbols(body: seq<byte>, user: Option<string>, server: Server, decode: Utf8Decoder,
                   parseDouble: DoubleParser): Result<SymbolsResult, SpamdError>
  {
    var resp :- SendWithBody(SYMBOLS, body, user, server, decode);
    SymbolsOf(resp, parseDouble)
  }

  /** A missing `Spam` header fails `check` but not `symbols`, on the same
      OK response. */
  lemma {:induction false} SpamHeaderOptionalForSymbols(resp: Response, parseDouble: DoubleParser)
    requires resp.code == 0 && Lookup(resp.headers, "spam").None?
    ensures CheckOf(resp, parseDouble).Failure?
    ensures SymbolsOf(resp, parseDouble).Success? && !SymbolsOf(resp, parseDouble).value.isSpam
  {
  }

  /** `check` and `symbols` agree on the verdict, score and threshold of an OK
      response that carries a `Spam` header. */
  lemma {:induction false} CheckAgreesWithSymbols(resp: Response, parseDouble: DoubleParser)
    requires CheckOf(resp, parseDouble).Success?
    ensures SymbolsOf(resp, parseDouble).Success?
    ensures var c := CheckOf(resp, parseDouble).value;
            var y := SymbolsOf(resp, parseDouble).value;
            c.isSpam == y.isSpam && c.score == y.score && c.threshold == y.threshold
            && c.rawResponse == y.rawResponse
  {
  }

  // ---------------------------------------------------------------------------
  // Whole exchanges
  // ---------------------------------------------------------------------------

  /** A frame splits into its first line, its header lines and its body. */
  lemma {:induction false} FrameLines(first: string, hs: seq<string>, body: seq<byte>)
    requires IsLineText(first)
    requires forall i :: 0 <= i < |hs| ==> IsLineText(hs[i]) && hs[i] != ""
    ensures ResponseLines(FrameHead(first, hs) + body) == Some((first, hs, |FrameHead(first, hs)|))
  {
    FrameReadBack(first, hs, body);
    ResponseLinesOfRead(Frame(first, hs, body), first, hs, body);
    assert |Frame(first, hs, body)| - |body| == |FrameHead(first, hs)|;
  }

  /** `readResponse` once the status line and the header lines are read. */
  lemma {:induction false} ParseResponseOfLines(data: seq<byte>, decode: Utf8Decoder, first: string, hs: seq<string>, end: nat)
    requires ResponseLines(data) == Some((first, hs, end))
    ensures end <= |data|
    ensures ParseResponse(data, decode) == ResponseOf(first, hs, data, end, decode)
  {
  }

  /** Data that reads back as a first line, header lines and a body splits into
      exactly those lines. */
  lemma {:induction false} ResponseLinesOfRead(data: seq<byte>, first: string, hs: seq<string>, body: seq<byte>)
    requires ReadsBackAs(data, first, hs, body)
    ensures ResponseLines(data) == Some((first, hs, |data| - |body|))
  {
  }

  /** `Spam` and `spam` are one key; `Content-length` is another. */
  lemma {:induction false} SpamKey()
    ensures ToLower("Spam") == ToLower("spam")
    ensures ToLower("Content-length") != ToLower("Spam")
  {
    var a := ToLower("Spam");
    var b := ToLower("spam");
    assert a[0] == b[0] && a[1] == b[1] && a[2] == b[2] && a[3] == b[3];
    assert |ToLower("Content-length")| == 14;
  }

  /** A reply whose only header is `Spam: <value>` maps `spam` to the value and
      has no `Content-length`. */
  lemma {:induction false} SpamOnlyHeaders(value: string)
    requires IsTrimmed(value)
    ensures Lookup(HeaderMap(["Spam: " + value]), "spam") == Some(value)
    ensures Lookup(HeaderMap(["Spam: " + value]), "Content-length") == None
  {
    SpamField(value);
    SingleHeaderMap("Spam: " + value, Field("Spam", value));
    SpamKey();
  }

  lemma {:induction false} SpamField(v: string)
    requires IsTrimmed(v)
    ensures HeaderField("Spam: " + v) == Some(Field("Spam", v))
  {
    assert "Spam: " + v == "Spam" + ": " + v;
    SpamName();
    HeaderFieldOfPrinted("Spam", v);
  }

  lemma {:induction false} SpamName()
    ensures IsTrimmed("Spam")
    ensures forall i :: 0 <= i < |"Spam"| ==> "Spam"[i] != ':'
  {
  }

  /** The map of a single header line. */
  lemma {:induction false} SingleHeaderMap(l: string, f: Field)
    requires HeaderField(l) == Some(f)
    ensures HeaderMap([l]) == map[ToLower(f.name) := f.value]
  {
    var fs := Fields([l]);
    assert [l][..0] == [];
    assert fs == [Some(f)];
    assert fs[..|fs| - 1] == [];
    assert FieldMap(fs[..|fs| - 1]) == map[];
  }

  /** The header spamd prints is trimmed, pure ASCII and free of CR. */
  lemma {:induction false} SpamHeaderTextIsLine(isSpam: bool, score: string, threshold: string)
    requires IsNumberText(score) && IsNumberText(threshold) && IsLineText(score) && IsLineText(threshold)
    ensures var h := SpamHeaderText(isSpam, score, threshold);
            IsTrimmed(h) && IsLineText(h) && IsLineText("Spam: " + h) && "Spam: " + h != ""
  {
    var h := SpamHeaderText(isSpam, score, threshold);
    assert h[|h| - 1] == threshold[|threshold| - 1];
    assert forall i :: 0 <= i < |h| ==> h[i] as int < 128 && h[i] != '\r';
    var l := "Spam: " + h;
    assert forall i :: 0 <= i < |l| ==> l[i] as int < 128 && l[i] != '\r';
  }

  /** `check` reports what `parseSpamHeader` reads from `h`: its failure, or an
      OK verdict with the flag, score and threshold of the header. */
  predicate CheckReads(result: Result<CheckResult, SpamdError>, h: string, parseDouble: DoubleParser, raw: string) {
    result == match ParseSpamHeader(h, parseDouble)
              case Failure(e) => Failure(e)
              case Success(sl) => Success(CheckResult(true, sl.isSpam, Some(sl.score), Some(sl.threshold), raw))
  }

  /** End to end: when spamd answers CHECK with status code 0 and a `Spam:`
      header, `check` returns what `parseSpamHeader` reads from that header
      (see `ParseSpamHeaderOfPrinted` for the header spamd prints). */
  lemma {:induction false} CheckOfReply(body: seq<byte>, user: Option<string>, server: Server, decode: Utf8Decoder,
                         parseDouble: DoubleParser, protocol: string, text: string, h: string)
    requires IsPrefix("SPAMD/", protocol) && NoRegexSpace(protocol) && IsLineText(protocol)
    requires (text == [] || !IsRegexSpace(text[0])) && IsLineText(text)
    requires IsTrimmed(h) && IsLineText("Spam: " + h)
    requires server(Request(CHECK, body, user)) == Frame(protocol + " 0 " + text, ["Spam: " + h], [])
    ensures CheckReads(Check(body, user, server, decode, parseDouble), h, parseDouble,
                       Raw(protocol + " 0 " + text, ["Spam: " + h], None))
  {
    StatusZeroParses(protocol, text);
    CheckOfStatus(body, user, server, decode, parseDouble, protocol + " 0 " + text, StatusLine(protocol, 0, text), h);
  }

  /** `check` when spamd answers with a status line that parses to code 0 and
      a single `Spam` header. */
  lemma {:induction false} CheckOfStatus(body: seq<byte>, user: Option<string>, server: Server, decode: Utf8Decoder,
                      parseDouble: DoubleParser, statusLine: string, status: StatusLine, h: string)
    requires IsLineText(statusLine) && ParseStatusLine(statusLine) == Success(status) && status.code == 0
    requires IsTrimmed(h) && IsLineText("Spam: " + h)
    requires server(Request(CHECK, body, user)) == Frame(statusLine, ["Spam: " + h], [])
    ensures CheckReads(Check(body, user, server, decode, parseDouble), h, parseDouble,
                       Raw(statusLine, ["Spam: " + h], None))
  {
    var hs := ["Spam: " + h];
    SpamOnlyHeaders(h);
    ReplyWithoutBody(statusLine, hs, decode, status);
    var resp := Response(status.protocol, 0, status.statusText, HeaderMap(hs), None, Raw(statusLine, hs, None));
    CheckOfSpamHeader(body, user, server, decode, parseDouble, Frame(statusLine, hs, []), resp, h);
  }

  /** `check` on an OK response carrying a `Spam` header. */
  lemma {:induction false} CheckOfSpamHeader(body: seq<byte>, user: Option<string>, server: Server, decode: Utf8Decoder,
                          parseDouble: DoubleParser, reply: seq<byte>, resp: Response, h: string)
    requires server(Request(CHECK, body, user)) == reply
    requires Answers(reply, decode, resp)
    requires resp.code == 0 && Lookup(resp.headers, "spam") == Some(h)
    ensures CheckReads(Check(body, user, server, decode, parseDouble), h, parseDouble,
                       resp.raw)
  {
  }

  /** A reply whose status line parses and which announces no `Content-length`
      reads as a response with that status and no body. */
  lemma {:induction false} ReplyWithoutBody(statusLine: string, hs: seq<string>, decode: Utf8Decoder, status: StatusLine)
    requires IsLineText(statusLine) && ParseStatusLine(statusLine) == Success(status)
    requires forall i :: 0 <= i < |hs| ==> IsLineText(hs[i]) && hs[i] != ""
    requires Lookup(HeaderMap(hs), "Content-length").None?
    ensures Answers(Frame(statusLine, hs, []), decode,
                    Response(status.protocol, status.code, status.statusText, HeaderMap(hs), None, Raw(statusLine, hs, None)))
  {
    var none: seq<byte> := [];
    var head := FrameHead(statusLine, hs);
    FrameLines(statusLine, hs, none);
    assert head + none == head;
    ParsedWithoutBody(head, statusLine, hs, decode, status);
  }

  /** `readResponse` on a reply without `Content-length`, once its lines are
      read. */
  lemma {:induction false} ParsedWithoutBody(data: seq<byte>, statusLine: string, hs: seq<string>, decode: Utf8Decoder,
                          status: StatusLine)
    requires ResponseLines(data) == Some((statusLine, hs, |data|))
    requires ParseStatusLine(statusLine) == Success(status)
    requires Lookup(HeaderMap(hs), "Content-length").None?
    ensures Answers(data, decode,
                    Response(status.protocol, status.code, status.statusText, HeaderMap(hs), None, Raw(statusLine, hs, None)))
  {
    ParseResponseOfLines(data, decode, statusLine, hs, |data|);
    ResponseOfBody(statusLine, hs, data, |data|, decode, status, None);
  }

  /** The rest of `readResponse` once the status line parses and the body is
      read: the response carries the status, the header map and the decoded
      body. */
  lemma {:induction false} ResponseOfBody(statusLine: string, hs: seq<string>, data: seq<byte>, end: nat, decode: Utf8Decoder,
                       status: StatusLine, bytes: Option<seq<byte>>)
    requires end <= |data|
    requires ParseStatusLine(statusLine) == Success(status)
    requires ReadBody(data, end, HeaderMap(hs)) == Success(bytes)
    ensures var body := if bytes.Some? then Some(decode(bytes.value)) else None;
            ResponseOf(statusLine, hs, data, end, decode)
            == Success(Response(status.protocol, status.code, status.statusText, HeaderMap(hs), body,
                                Raw(statusLine, hs, body)))
  {
  }

  /** A status line with code 0 is a line of text that parses as OK. */
  lemma {:induction false} StatusZeroParses(protocol: string, text: string)
    requires IsPrefix("SPAMD/", protocol) && NoRegexSpace(protocol) && IsLineText(protocol)
    requires (text == [] || !IsRegexSpace(text[0])) && IsLineText(text)
    ensures IsLineText(protocol + " 0 " + text)
    ensures ParseStatusLine(protocol + " 0 " + text) == Success(StatusLine(protocol, 0, text))
  {
    var status := protocol + " 0 " + text;
    assert forall i :: 0 <= i < |status| ==> status[i] as int < 128 && status[i] != '\r';
    assert IntToString(0) == "0";
    assert status == protocol + " " + IntToString(0) + " " + text;
    ParseStatusLineOfPrinted(protocol, 0, text);
  }

  /** The `Content-length` header written for `n` bytes parses back to `n`. */
  lemma {:induction false} ContentLengthHeader(n: nat)
    requires n <= INT_MAX
    ensures HeaderField("Content-length: " + IntToString(n)) == Some(Field("Content-length", IntToString(n)))
    ensures SafeParseInt(IntToString(n), -1) == n
  {
    PrintedIntIsWord(n);
    SafeParseIntOfPrinted(n, -1);
    LengthField(IntToString(n));
  }

  lemma {:induction false} LengthField(v: string)
    requires IsTrimmed(v)
    ensures HeaderField("Content-length: " + v) == Some(Field("Content-length", v))
  {
    assert "Content-length: " + v == "Content-length" + ": " + v;
    ContentLengthName();
    HeaderFieldOfPrinted("Content-length", v);
  }

  lemma {:induction false} ContentLengthName()
    ensures IsTrimmed("Content-length")
    ensures forall i :: 0 <= i < |"Content-length"| ==> "Content-length"[i] != ':'
  {
  }

  /** A reply whose only header is `Content-length: <n>`: the length is found
      and there is no `Spam` header. */
  lemma {:induction false} LengthOnlyHeaders(n: nat)
    requires n <= INT_MAX
    ensures var hs := ["Content-length: " + IntToString(n)];
            (forall i :: 0 <= i < |hs| ==> IsLineText(hs[i]) && hs[i] != "")
            && Lookup(HeaderMap(hs), "Content-length") == Some(IntToString(n))
            && SafeParseInt(Lookup(HeaderMap(hs), "Content-length").value, -1) == n
            && Lookup(HeaderMap(hs), "spam") == None
  {
    LengthOnlyMap(n);
    LengthLineIsText(n);
    OneLine("Content-length: " + IntToString(n));
  }

  lemma {:induction false} LengthOnlyMap(n: nat)
    requires n <= INT_MAX
    ensures var hs := ["Content-length: " + IntToString(n)];
            Lookup(HeaderMap(hs), "Content-length") == Some(IntToString(n))
            && Lookup(HeaderMap(hs), "spam") == None
            && SafeParseInt(IntToString(n), -1) == n
  {
    ContentLengthHeader(n);
    SingleHeaderMap("Content-length: " + IntToString(n), Field("Content-length", IntToString(n)));
    SpamKey();
  }

  /** A single non-empty text line is a valid header block. */
  lemma {:induction false} OneLine(l: string)
    requires IsLineText(l) && l != ""
    ensures forall i :: 0 <= i < |[l]| ==> IsLineText([l][i]) && [l][i] != ""
  {
  }

  /** When `Content-length` announces exactly the bytes that remain, they are
      the body. */
  lemma {:induction false} BodyIsRest(head: seq<byte>, body: seq<byte>, headers: map<string, string>)
    requires Lookup(headers, "Content-length").Some?
    requires SafeParseInt(Lookup(headers, "Content-length").value, -1) == |body|
    ensures ReadBody(head + body, |head|, headers) == Success(Some(body))
  {
    assert (head + body)[|head|..|head| + |body|] == body;
  }

  /** A reply whose status line parses and whose `Content-length` is the
      length of what follows the empty line reads as a response with that
      status and exactly that body. */
  lemma {:induction false} ReplyWithBody(statusLine: string, hs: seq<string>, body: seq<byte>, decode: Utf8Decoder,
                      status: StatusLine)
    requires IsLineText(statusLine) && ParseStatusLine(statusLine) == Success(status)
    requires forall i :: 0 <= i < |hs| ==> IsLineText(hs[i]) && hs[i] != ""
    requires Lookup(HeaderMap(hs), "Content-length").Some?
    requires SafeParseInt(Lookup(HeaderMap(hs), "Content-length").value, -1) == |body|
    ensures Answers(Frame(statusLine, hs, body), decode,
                    Response(status.protocol, status.code, status.statusText, HeaderMap(hs), Some(decode(body)), Raw(statusLine, hs, Some(decode(body)))))
  {
    FrameLines(statusLine, hs, body);
    ParsedWithBody(FrameHead(statusLine, hs), statusLine, hs, body, decode, status);
  }

  /** `readResponse` once the lines are read, when the status line parses and
      the announced `Content-length` is exactly what remains of the data. */
  lemma {:induction false} ParsedWithBody(head: seq<byte>, statusLine: string, hs: seq<string>, body: seq<byte>, decode: Utf8Decoder,
                       status: StatusLine)
    requires ResponseLines(head + body) == Some((statusLine, hs, |head|))
    requires ParseStatusLine(statusLine) == Success(status)
    requires Lookup(HeaderMap(hs), "Content-length").Some?
    requires SafeParseInt(Lookup(HeaderMap(hs), "Content-length").value, -1) == |body|
    ensures Answers(head + body, decode,
                    Response(status.protocol, status.code, status.statusText, HeaderMap(hs), Some(decode(body)), Raw(statusLine, hs, Some(decode(body)))))
  {
    ParseResponseOfLines(head + body, decode, statusLine, hs, |head|);
    BodyIsRest(head, body, HeaderMap(hs));
    ResponseOfBody(statusLine, hs, head + body, |head|, decode, status, Some(body));
  }


  /** End to end: when spamd answers SYMBOLS with status code 0, a
      `Content-length` and no `Spam` header, `symbols` returns the body bytes
      decoded as the symbol list, and no verdict. */
  lemma {:induction false} SymbolsOfReply(body: seq<byte>, user: Option<string>, server: Server, decode: Utf8Decoder,
                       parseDouble: DoubleParser, protocol: string, text: string, symbols: seq<byte>)
    requires IsPrefix("SPAMD/", protocol) && NoRegexSpace(protocol) && IsLineText(protocol)
    requires (text == [] || !IsRegexSpace(text[0])) && IsLineText(text)
    requires |symbols| <= INT_MAX
    requires server(Request(SYMBOLS, body, user))
             == Frame(protocol + " 0 " + text, ["Content-length: " + IntToString(|symbols|)], symbols)
    ensures Symbols(body, user, server, decode, parseDouble)
            == Success(SymbolsResult(true, false, None, None, decode(symbols),
                                     Raw(protocol + " 0 " + text, ["Content-length: " + IntToString(|symbols|)],
                                         Some(decode(symbols)))))
  {
    StatusZeroParses(protocol, text);
    LengthOnlyHeaders(|symbols|);
    SymbolsOfStatus(body, user, server, decode, parseDouble, protocol + " 0 " + text, StatusLine(protocol, 0, text),
                    ["Content-length: " + IntToString(|symbols|)], symbols);
  }

  /** `symbols` when spamd answers with a status line that parses to code 0,
      headers announcing the length of the rest and no `Spam` header. */
  lemma {:induction false} SymbolsOfStatus(body: seq<byte>, user: Option<string>, server: Server, decode: Utf8Decoder,
                        parseDouble: DoubleParser, statusLine: string, status: StatusLine, hs: seq<string>,
                        symbols: seq<byte>)
    requires IsLineText(statusLine) && ParseStatusLine(statusLine) == Success(status) && status.code == 0
    requires forall i :: 0 <= i < |hs| ==> IsLineText(hs[i]) && hs[i] != ""
    requires Lookup(HeaderMap(hs), "Content-length").Some?
    requires SafeParseInt(Lookup(HeaderMap(hs), "Content-length").value, -1) == |symbols|
    requires Lookup(HeaderMap(hs), "spam").None?
    requires server(Request(SYMBOLS, body, user)) == Frame(statusLine, hs, symbols)
    ensures Symbols(body, user, server, decode, parseDouble)
            == Success(SymbolsResult(true, false, None, None, decode(symbols),
                                     Raw(statusLine, hs, Some(decode(symbols)))))
  {
    ReplyWithBody(statusLine, hs, symbols, decode, status);
    var resp := Response(status.protocol, 0, status.statusText, HeaderMap(hs), Some(decode(symbols)),
                         Raw(statusLine, hs, Some(decode(symbols))));
    SymbolsWithoutVerdict(body, user, server, decode, parseDouble, Frame(statusLine, hs, symbols), resp);
  }

  /** `symbols` on an OK response without a `Spam` header. */
  lemma {:induction false} SymbolsWithoutVerdict(body: seq<byte>, user: Option<string>, server: Server, decode: Utf8Decoder,
                              parseDouble: DoubleParser, reply: seq<byte>, resp: Response)
    requires server(Request(SYMBOLS, body, user)) == reply
    requires Answers(reply, decode, resp)
    requires resp.code == 0 && Lookup(resp.headers, "spam").None?
    ensures Symbols(body, user, server, decode, parseDouble)
            == Success(SymbolsResult(true, false, None, None, resp.body.GetOr(""), resp.raw))
  {
  }

  lemma {:induction false} LengthLineIsText(n: nat)
    requires n <= INT_MAX
    ensures IsLineText("Content-length: " + IntToString(n)) && "Content-length: " + IntToString(n) != ""
  {
    NatToStringDigits(n);
    var l := "Content-length: " + IntToString(n);
    assert forall i :: 0 <= i < |l| ==> l[i] as int < 128 && l[i] != '\r';
  }

  /** The request lines are lines of text: the command line and each header. */
  lemma {:induction false} RequestLinesAreText(cmd: Command, n: nat, user: Option<string>)
    requires n <= INT_MAX
    requires !LangUtils.EmptyString(user) ==> IsLineText(user.value)
    ensures IsLineText(Verb(cmd) + " SPAMC/1.5")
    ensures var hs := RequestHeaders(n, user);
            forall i :: 0 <= i < |hs| ==> IsLineText(hs[i]) && hs[i] != ""
  {
    var first := Verb(cmd) + " SPAMC/1.5";
    assert forall i :: 0 <= i < |first| ==> first[i] as int < 128 && first[i] != '\r';
    LengthLineIsText(n);
    if !LangUtils.EmptyString(user) {
      var u := "User: " + user.value;
      assert forall i :: 0 <= i < |u| ==> u[i] as int < 128 && u[i] != '\r';
    }
  }

  /** What the other end reads from `data`: `first` as the first line, then
      exactly the lines `hs` up to the empty line, then `body` to the end. */
  predicate ReadsBackAs(data: seq<byte>, first: string, hs: seq<string>, body: seq<byte>) {
    |first| + 2 <= |data| && |body| <= |data|
    && MailUtils.ReadLine(data, 0) == (Some(first), |first| + 2)
    && ReadHeaderLines(data, |first| + 2) == (hs, |data| - |body|)
    && data[|data| - |body|..] == body
  }

  /** What spamd reads from a request: the command line, then exactly the
      request headers up to the empty line, then the message itself. */
  lemma {:induction false} RequestReadBack(cmd: Command, body: seq<byte>, user: Option<string>)
    requires |body| <= INT_MAX
    requires !LangUtils.EmptyString(user) ==> IsLineText(user.value)
    ensures ReadsBackAs(Request(cmd, body, user), Verb(cmd) + " SPAMC/1.5", RequestHeaders(|body|, user), body)
  {
    var first := Verb(cmd) + " SPAMC/1.5";
    var hs := RequestHeaders(|body|, user);
    RequestLinesAreText(cmd, |body|, user);
    FrameReadBack(first, hs, body);
  }

  /** A frame reads back as its first line, its header lines and its body. */
  lemma {:induction false} FrameReadBack(first: string, hs: seq<string>, body: seq<byte>)
    requires IsLineText(first)
    requires forall i :: 0 <= i < |hs| ==> IsLineText(hs[i]) && hs[i] != ""
    ensures ReadsBackAs(Frame(first, hs, body), first, hs, body)
  {
    ReadFrameFirst(first, hs, body);
    ReadFrameHeaders(first, hs, body);
    var head := FrameHead(first, hs);
    assert (head + body)[|head|..] == body;
  }

  /** A map that gains one key keeps every other lookup. */
  lemma {:induction false} LookupOtherKey(m: map<string, string>, k: string, v: string, name: string)
    requires ToLower(name) != k
    ensures Lookup(m[k := v], name) == Lookup(m, name)
  {
  }

  /** The request headers announce the message length in a `Content-length`
      that parses back to it, and carry a `User` header exactly when a
      non-blank user is configured. */
  lemma {:induction false} RequestHeaderMap(n: nat, user: Option<string>)
    requires n <= INT_MAX
    ensures var hs := RequestHeaders(n, user);
            Lookup(HeaderMap(hs), "Content-length") == Some(IntToString(n))
            && SafeParseInt(IntToString(n), -1) == n
            && (Lookup(HeaderMap(hs), "User").Some? <==> !LangUtils.EmptyString(user))
  {
    var hs := RequestHeaders(n, user);
    var cl := "Content-length: " + IntToString(n);
    var m := map[ToLower("Content-length") := IntToString(n)];
    ContentLengthHeader(n);
    SingleHeaderMap(cl, Field("Content-length", IntToString(n)));
    assert HeaderMap([cl]) == m;
    UserKey();
    if !LangUtils.EmptyString(user) {
      var u := "User: " + user.value;
      var f := HeaderField(u);
      UserHeaderField(user.value);
      assert hs == [cl] + [u];
      HeaderMapAppend([cl], u);
      assert HeaderMap(hs) == m[ToLower("User") := f.value.value];
      LookupOtherKey(m, ToLower("User"), f.value.value, "Content-length");
    } else {
      assert hs == [cl];
    }
  }

  /** `User` and `Content-length` are different keys. */
  lemma {:induction false} UserKey()
    ensures ToLower("Content-length") != ToLower("User")
  {
    assert |ToLower("Content-length")| == 14;
  }

  /** A `User` line always has its name: the colon sits right after `User`. */
  lemma {:induction false} UserHeaderField(user: string)
    ensures HeaderField("User: " + user).Some?
    ensures HeaderField("User: " + user).value.name == "User"
  {
    var l := "User: " + user;
    assert l == "User" + [':'] + (" " + user);
    FirstSeparator("User", " " + user, ':');
    assert l[..4] == "User";
    TrimOfTrimmed("User");
  }
}
