/**
  The helpers of `MailUtils` outside the text extraction it shares with
  `MailText`: the CRLF line reader used by the spamd client, label splitting,
  the archive-folder guess and the charset label normalization; plus the
  `MailUtils` entry points of the extraction.

  An `InputStream` is its remaining bytes `data` and a read position `pos`.
*/
module MailUtils {
  import opened Wrappers
  import opened JavaStrings
  import MailText

  // ---------------------------------------------------------------------------
  // readLineCRLF
  // ---------------------------------------------------------------------------

  /** A CR immediately followed by LF ends at index `j` (the LF). */
  predicate CrlfAt(data: seq<byte>, j: int) {
    1 <= j < |data| && data[j - 1] == CR && data[j] == LF
  }

  /** The index of the LF of the first CR-LF pair read from `pos` on (both bytes
      at or after `pos`), or -1. */
  function FirstCrlf(data: seq<byte>, pos: nat): (j: int)
    requires pos <= |data|
    ensures j == -1 || (pos < j < |data| && CrlfAt(data, j))
    ensures forall k :: pos < k < |data| && (j == -1 || k < j) ==> !CrlfAt(data, k)
    decreases |data| - pos
  {
    if pos + 1 >= |data| then -1
    else if CrlfAt(data, pos + 1) then pos + 1
    else FirstCrlf(data, pos + 1)
  }

  /** What `readLineCRLF` returns and where it leaves the stream: null at EOF
      before any byte; the bytes before the first CR-LF (which is consumed);
      or, with no CR-LF, every remaining byte. */
  function ReadLine(data: seq<byte>, pos: nat): (r: (Option<string>, nat))
    requires pos <= |data|
    ensures r.0.None? <==> pos == |data|
    ensures pos <= r.1 <= |data|
    ensures r.0.Some? ==> pos < r.1
  {
    if pos == |data| then (None, pos)
    else
      var j := FirstCrlf(data, pos);
      if j >= 0 then (Some(AsciiDecode(data[pos..j - 1])), j + 1)
      else (Some(AsciiDecode(data[pos..])), |data|)
  }

  /** `readLineCRLF`: one byte at a time, remembering the previous byte. */
  method ReadLineCRLF(data: seq<byte>, pos: nat) returns (line: Option<string>, next: nat)
    requires pos <= |data|
    ensures (line, next) == ReadLine(data, pos)
  {
    var buf: seq<byte> := [];
    var prev: int := -1;
    var gotAny := false;
    var p := pos;
    while p < |data|
      invariant pos <= p <= |data|
      invariant |buf| == p - pos && forall k :: 0 <= k < |buf| ==> buf[k] == data[pos + k]
      invariant gotAny <==> p > pos
      invariant prev == if p > pos then data[p - 1] as int else -1
      invariant forall k :: pos < k < p ==> !CrlfAt(data, k)
    {
      var b := data[p];
      p := p + 1;
      gotAny := true;
      if prev == CR as int && b == LF {
        assert CrlfAt(data, p - 1);
        assert FirstCrlf(data, pos) == p - 1;
        var len := if |buf| - 1 > 0 then |buf| - 1 else 0;
        assert buf[..len] == data[pos..p - 2];
        return Some(AsciiDecode(buf[..len])), p;
      }
      buf := buf + [b];
      prev := b as int;
    }
    assert FirstCrlf(data, pos) == -1;
    assert buf == data[pos..];
    if gotAny {
      return Some(AsciiDecode(buf)), p;
    }
    return None, p;
  }

  /** No CR-LF pair inside the bytes. */
  predicate NoCrlf(bs: seq<byte>) {
    forall k :: 1 <= k < |bs| ==> !CrlfAt(bs, k)
  }

  /** Round trip: a line written with its CR-LF terminator is read back exactly,
      and the read stops right after the terminator. */
  lemma {:induction false} ReadLineOfFramed(before: seq<byte>, line: seq<byte>, after: seq<byte>)
    requires NoCrlf(line)
    ensures var data := before + line + [CR, LF] + after;
      ReadLine(data, |before|) == (Some(AsciiDecode(line)), |before| + |line| + 2)
  {
    var data := before + line + [CR, LF] + after;
    var pos := |before|;
    var j := pos + |line| + 1;
    assert CrlfAt(data, j);
    forall k | pos < k < j
      ensures !CrlfAt(data, k)
    {
      if k < j - 1 {
        assert !CrlfAt(line, k - pos);
        assert data[k - 1] == line[k - 1 - pos] && data[k] == line[k - pos];
      } else {
        assert data[k] == CR;
      }
    }
    assert FirstCrlf(data, pos) == j;
    assert data[pos..j - 1] == line;
  }

  /** At end of input without a CR-LF, every remaining byte is the line. */
  lemma {:induction false} ReadLineUnterminated(data: seq<byte>, pos: nat)
    requires pos < |data| && NoCrlf(data[pos..])
    ensures ReadLine(data, pos) == (Some(AsciiDecode(data[pos..])), |data|)
  {
    var rest := data[pos..];
    forall k | pos < k < |data|
      ensures !CrlfAt(data, k)
    {
      assert !CrlfAt(rest, k - pos);
      assert rest[k - pos - 1] == data[k - 1] && rest[k - pos] == data[k];
    }
  }

  // ---------------------------------------------------------------------------
  // splitLabels
  // ---------------------------------------------------------------------------

  predicate IsLabelSeparator(c: char) {
    c == ',' || c == ';'
  }

  /** No `,` and no `;` in the text. */
  predicate NoSeparator(s: string) {
    forall k :: 0 <= k < |s| ==> !IsLabelSeparator(s[k])
  }

  /** The pieces between separators, empty ones included. */
  function Pieces(s: string): (ps: seq<string>)
    ensures |ps| > 0
    ensures forall i :: 0 <= i < |ps| ==> NoSeparator(ps[i])
    decreases |s|
  {
    if s == [] then [""]
    else
      var rest := Pieces(s[1..]);
      if IsLabelSeparator(s[0]) then [""] + rest
      else [[s[0]] + rest[0]] + rest[1..]
  }

  lemma {:induction false} TrimKeepsNoSeparator(s: string)
    requires NoSeparator(s)
    ensures NoSeparator(Trim(s))
  {
    var t := Trim(s);
    var o :| OccursAt(s, t, o);
    assert forall k :: 0 <= k < |t| ==> t[k] == s[o + k];
  }

  /** A well-formed label: non-empty, already trimmed, no separator. */
  predicate IsLabel(l: string) {
    l != "" && IsTrimmed(l) && NoSeparator(l)
  }

  /** Trim each piece and keep the non-empty ones. */
  function TrimmedNonEmpty(ps: seq<string>): (r: seq<string>)
    requires forall i :: 0 <= i < |ps| ==> NoSeparator(ps[i])
    ensures forall i :: 0 <= i < |r| ==> IsLabel(r[i])
  {
    if ps == [] then []
    else
      var t := Trim(ps[0]);
      TrimKeepsNoSeparator(ps[0]);
      var rest := TrimmedNonEmpty(ps[1..]);
      if t == "" then rest else [t] + rest
  }

  /** `splitLabels`: null gives no labels; otherwise split on `,` and `;`, trim
      each piece and drop the empty ones. Every label is non-empty, trimmed and
      free of separators. */
  function SplitLabels(s: Option<string>): (r: seq<string>)
    ensures s.None? ==> r == []
    ensures forall i :: 0 <= i < |r| ==> IsLabel(r[i])
  {
    if s.None? then [] else TrimmedNonEmpty(Pieces(s.value))
  }

  lemma {:induction false} PiecesOfLabel(l: string, sep: char, tail: string)
    requires NoSeparator(l)
    requires IsLabelSeparator(sep)
    ensures Pieces(l + [sep] + tail) == [l] + Pieces(tail)
    decreases |l|
  {
    if l == [] {
      assert l + [sep] + tail == [sep] + tail;
      assert ([sep] + tail)[1..] == tail;
    } else {
      assert (l + [sep] + tail)[1..] == l[1..] + [sep] + tail;
      PiecesOfLabel(l[1..], sep, tail);
      assert [l[0]] + l[1..] == l;
    }
  }

  lemma {:induction false} PiecesOfPlain(l: string)
    requires NoSeparator(l)
    ensures Pieces(l) == [l]
    decreases |l|
  {
    if l != [] {
      PiecesOfPlain(l[1..]);
      assert [l[0]] + l[1..] == l;
    }
  }

  /** Round trip: labels joined with `,` split back into the same labels. */
  lemma {:induction false} SplitJoinedLabels(labels: seq<string>)
    requires forall i :: 0 <= i < |labels| ==> IsLabel(labels[i])
    ensures SplitLabels(Some(Join(labels, ","))) == labels
    decreases |labels|
  {
    if labels == [] {
      assert Pieces("") == [""];
    } else if |labels| == 1 {
      PiecesOfPlain(labels[0]);
      assert TrimmedNonEmpty([labels[0]]) == [labels[0]] by {
        assert [labels[0]][1..] == [];
      }
    } else {
      var tail := Join(labels[1..], ",");
      assert Join(labels, ",") == labels[0] + [','] + tail;
      PiecesOfLabel(labels[0], ',', tail);
      SplitJoinedLabels(labels[1..]);
      assert ([labels[0]] + Pieces(tail))[1..] == Pieces(tail);
    }
  }

  // ---------------------------------------------------------------------------
  // resolveArchiveName
  // ---------------------------------------------------------------------------

  /** The archive folder names tried, in order. */
  const ARCHIVE_CANDIDATES: seq<string> := ["Archive", "Archivio", "[Gmail]/All Mail", "[Gmail]/Tutti i messaggi"]

  /** `resolveArchiveName`: the first candidate that exists among `folders`, or
      null. */
  method ResolveArchiveName(folders: set<string>) returns (r: Option<string>)
    ensures r.Some? ==> exists i :: 0 <= i < |ARCHIVE_CANDIDATES| && ARCHIVE_CANDIDATES[i] == r.value
                          && ARCHIVE_CANDIDATES[i] in folders
                          && forall j :: 0 <= j < i ==> ARCHIVE_CANDIDATES[j] !in folders
    ensures r.None? ==> forall i :: 0 <= i < |ARCHIVE_CANDIDATES| ==> ARCHIVE_CANDIDATES[i] !in folders
  {
    var i := 0;
    while i < |ARCHIVE_CANDIDATES|
      invariant 0 <= i <= |ARCHIVE_CANDIDATES|
      invariant forall j :: 0 <= j < i ==> ARCHIVE_CANDIDATES[j] !in folders
    {
      var c := ARCHIVE_CANDIDATES[i];
      if c in folders {
        return Some(c);
      }
      i := i + 1;
    }
    return None;
  }

  // ---------------------------------------------------------------------------
  // detectCharset
  // ---------------------------------------------------------------------------

  /** The label `detectCharset` looks up: trimmed, lower-cased, `_` turned into
      `-`, and `utf8` spelled `utf-8`. */
  function CharsetLabel(cs: string): (r: string)
    ensures forall i :: 0 <= i < |r| ==> r[i] != '_' && !('A' <= r[i] <= 'Z')
    ensures SpellsUtf8(Trim(cs)) ==> r == "utf-8"
    ensures !SpellsUtf8(Trim(cs)) ==> |r| == |Trim(cs)| && forall i :: 0 <= i < |r| ==> r[i] == FoldChar(Trim(cs)[i])
  {
    var norm := ReplaceChar(ToLower(Trim(cs)), '_', '-');
    FoldIsLabel(Trim(cs));
    assert norm == "utf8" <==> SpellsUtf8(Trim(cs)) by {
      if SpellsUtf8(Trim(cs)) {
        assert forall i :: 0 <= i < 4 ==> norm[i] == "utf8"[i];
      }
    }
    if norm == "utf8" then "utf-8" else norm
  }

  /** One char of a label: lower-cased, with `_` read as `-`. */
  function FoldChar(c: char): char {
    if LowerChar(c) == '_' then '-' else LowerChar(c)
  }

  /** A trimmed parameter that folds to `utf8`, such as `UTF8` or `Utf8`. */
  predicate SpellsUtf8(t: string) {
    |t| == 4 && forall i :: 0 <= i < 4 ==> FoldChar(t[i]) == "utf8"[i]
  }

  lemma {:induction false} FoldIsLabel(t: string)
    ensures var norm := ReplaceChar(ToLower(t), '_', '-');
            forall i :: 0 <= i < |norm| ==> norm[i] != '_' && !('A' <= norm[i] <= 'Z')
  {
  }

  /** `detectCharset`: the charset parameter of the content type (`None` when the
      type or the parameter is missing or the type does not parse), looked up
      under its normalized label when `supported`; UTF-8 otherwise. */
  function DetectCharset(charsetParam: Option<string>, supported: string -> bool): (r: string)
    ensures charsetParam.None? ==> r == "utf-8"
    ensures charsetParam.Some? && supported(CharsetLabel(charsetParam.value)) ==> r == CharsetLabel(charsetParam.value)
    ensures charsetParam.Some? && !supported(CharsetLabel(charsetParam.value)) ==> r == "utf-8"
  {
    if charsetParam.Some? && supported(CharsetLabel(charsetParam.value)) then CharsetLabel(charsetParam.value)
    else "utf-8"
  }

  /** The label does not depend on the letter case of the parameter. */
  lemma {:induction false} CharsetLabelIgnoresCase(cs: string)
    ensures CharsetLabel(ToLower(cs)) == CharsetLabel(cs)
  {
    TrimToLower(cs);
    ToLowerIdempotent(Trim(cs));
  }

  lemma {:induction false} FoldTrimmed(t: string)
    requires IsTrimmed(t)
    ensures IsTrimmed(ReplaceChar(ToLower(t), '_', '-'))
  {
    var norm := ReplaceChar(ToLower(t), '_', '-');
    if t != [] {
      assert norm[0] == (if LowerChar(t[0]) == '_' then '-' else LowerChar(t[0]));
      assert norm[|norm| - 1] == (if LowerChar(t[|t| - 1]) == '_' then '-' else LowerChar(t[|t| - 1]));
    }
  }

  lemma {:induction false} LabelTrimmed(cs: string)
    ensures IsTrimmed(CharsetLabel(cs))
  {
    FoldTrimmed(Trim(cs));
  }

  lemma {:induction false} LabelFixed(r: string)
    requires IsTrimmed(r) && r != "utf8"
    requires forall i :: 0 <= i < |r| ==> r[i] != '_' && !('A' <= r[i] <= 'Z')
    ensures CharsetLabel(r) == r
  {
    TrimOfTrimmed(r);
    assert ToLower(r) == r;
    assert ReplaceChar(r, '_', '-') == r;
  }

  /** Normalizing a label twice changes nothing. */
  lemma {:induction false} CharsetLabelIdempotent(cs: string)
    ensures CharsetLabel(CharsetLabel(cs)) == CharsetLabel(cs)
  {
    LabelTrimmed(cs);
    var norm := ReplaceChar(ToLower(Trim(cs)), '_', '-');
    var r := CharsetLabel(cs);
    assert r == (if norm == "utf8" then "utf-8" else norm);
    LabelFixed(r);
  }

  // ---------------------------------------------------------------------------
  // The extraction entry points of this copy
  // ---------------------------------------------------------------------------

  /** `isSkippableBinary` of this copy: the shared rule plus every image part
      that is not text. */
  function IsSkippableBinary(p: MailText.Part): (r: bool)
    ensures MailText.IsMimeType(p, "image", "*") && !MailText.IsMimeType(p, "text", "*") ==> r
    ensures MailText.IsSkippableBinary(MailText.TextExtractor, p) ==> r
  {
    MailText.SkipFlavorsOrdered(p);
    MailText.IsSkippableBinary(MailText.Utils, p)
  }

  /** `extractTextFromMessage` of this copy. */
  function ExtractTextFromMessage(msg: Option<MailText.Part>, render: MailText.Renderer): (r: string)
    ensures |r| <= MailText.MAX_OUTPUT_CHARS
    ensures IsPrefix(r, Trim(MailText.Accumulated(MailText.Utils, msg, render)))
  {
    MailText.ExtractTextFromMessage(MailText.Utils, msg, render)
  }
}
