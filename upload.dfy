// The upload request parser of the image service: the file part of a
// multipart/form-data request body (RFC 7578, delimiters as in section
// 5.1.1 of RFC 2046, without the standard's CRLF placement checks), the
// file name and data it carries, and the validation that turns a request
// into an upload or a client error.
//
// Bodies are the already-decoded request bytes; the content-type header is
// taken as its UTF-8 bytes, so substring tests on it agree with the tests
// on the text.

module Upload {

  newtype byte = x: int | 0 <= x < 256

  type Bytes = seq<byte>

  datatype Option<T> = None | Some(value: T)

  const CR: byte := 0x0D
  const LF: byte := 0x0A
  const QUOTE: byte := 0x22
  const DOT: byte := 0x2E
  const SLASH: byte := 0x2F
  const CRLF: Bytes := [CR, LF]
  const BlankLine: Bytes := [CR, LF, CR, LF]
  /** `--`, which precedes the boundary in a delimiter */
  const Dashes: Bytes := [0x2D, 0x2D]
  /** `multipart/form-data` */
  const MultipartType: Bytes :=
    [0x6D, 0x75, 0x6C, 0x74, 0x69, 0x70, 0x61, 0x72, 0x74, 0x2F, 0x66, 0x6F, 0x72, 0x6D, 0x2D, 0x64, 0x61, 0x74, 0x61]
  /** `boundary=` */
  const BoundaryKey: Bytes := [0x62, 0x6F, 0x75, 0x6E, 0x64, 0x61, 0x72, 0x79, 0x3D]
  /** `Content-Disposition: form-data` */
  const FormData: Bytes :=
    [0x43, 0x6F, 0x6E, 0x74, 0x65, 0x6E, 0x74, 0x2D, 0x44, 0x69, 0x73, 0x70, 0x6F, 0x73, 0x69,
     0x74, 0x69, 0x6F, 0x6E, 0x3A, 0x20, 0x66, 0x6F, 0x72, 0x6D, 0x2D, 0x64, 0x61, 0x74, 0x61]
  /** `filename=` */
  const FilenameKey: Bytes := [0x66, 0x69, 0x6C, 0x65, 0x6E, 0x61, 0x6D, 0x65, 0x3D]
  /** `filename="` */
  const FilenameOpen: Bytes := FilenameKey + [QUOTE]
  /** `uploads/`, the key prefix of stored images */
  const UploadsPrefix: Bytes := [0x75, 0x70, 0x6C, 0x6F, 0x61, 0x64, 0x73, 0x2F]

  // ---------------------------------------------------------------------
  // Byte-string search, as bytes.find, bytes.rfind, `in` and bytes.split

  /** pat occurs in s at position k. */
  predicate OccursAt(s: Bytes, pat: Bytes, k: int) {
    0 <= k && k + |pat| <= |s| && s[k..k + |pat|] == pat
  }

  function FindFrom(s: Bytes, pat: Bytes, i: nat): (r: int)
    requires i <= |s|
    ensures r == -1 || (i <= r && OccursAt(s, pat, r))
    ensures forall k | i <= k && (r == -1 || k < r) :: !OccursAt(s, pat, k)
    decreases |s| - i
  {
    if i + |pat| > |s| then -1
    else if s[i..i + |pat|] == pat then i
    else FindFrom(s, pat, i + 1)
  }

  /** bytes.find: the first position of pat in s, or -1. */
  function Find(s: Bytes, pat: Bytes): (r: int)
    ensures r == -1 || OccursAt(s, pat, r)
    ensures forall k | 0 <= k && (r == -1 || k < r) :: !OccursAt(s, pat, k)
  {
    FindFrom(s, pat, 0)
  }

  function RFindBelow(s: Bytes, pat: Bytes, n: nat): (r: int)
    ensures r == -1 || (r < n && OccursAt(s, pat, r))
    ensures forall k | r < k < n :: !OccursAt(s, pat, k)
  {
    if n == 0 then -1
    else if OccursAt(s, pat, n - 1) then n - 1
    else RFindBelow(s, pat, n - 1)
  }

  /** bytes.rfind: the last position of pat in s, or -1. */
  function RFind(s: Bytes, pat: Bytes): (r: int)
    ensures r == -1 || OccursAt(s, pat, r)
    ensures forall k | r < k :: !OccursAt(s, pat, k)
  {
    RFindBelow(s, pat, |s| + 1)
  }

  /** The `in` test on byte strings. */
  function Contains(s: Bytes, pat: Bytes): (b: bool)
    ensures b <==> exists k :: OccursAt(s, pat, k)
  {
    Find(s, pat) >= 0
  }

  /** The pieces of a split, put back together with the separator. */
  function Join(xs: seq<Bytes>, sep: Bytes): Bytes
    requires |xs| >= 1
  {
    if |xs| == 1 then xs[0] else xs[0] + sep + Join(xs[1..], sep)
  }

  /** bytes.split with a non-empty separator. */
  function Split(s: Bytes, sep: Bytes): (r: seq<Bytes>)
    requires |sep| > 0
    ensures |r| >= 1 && (|r| >= 2 <==> Contains(s, sep))
    decreases |s|
  {
    var i := Find(s, sep);
    if i < 0 then [s] else [s[..i]] + Split(s[i + |sep|..], sep)
  }

  lemma OccursInPrefix(s: Bytes, pat: Bytes, n: nat, k: int)
    requires n <= |s| && OccursAt(s[..n], pat, k)
    ensures OccursAt(s, pat, k)
  {
    assert s[..n][k..k + |pat|] == s[k..k + |pat|];
  }

  lemma OccursInSuffix(s: Bytes, pat: Bytes, d: nat, k: int)
    requires d <= |s| && OccursAt(s[d..], pat, k)
    ensures OccursAt(s, pat, k + d)
  {
    assert s[d..][k..k + |pat|] == s[k + d..k + d + |pat|];
  }

  /** The text before the first occurrence of pat contains no pat. */
  lemma NoneBeforeFirst(s: Bytes, pat: Bytes)
    requires |pat| > 0 && Find(s, pat) >= 0
    ensures !Contains(s[..Find(s, pat)], pat)
  {
    var i := Find(s, pat);
    forall k | OccursAt(s[..i], pat, k)
      ensures false
    {
      OccursInPrefix(s, pat, i, k);
    }
  }

  /** Splitting and joining again gives back the input. */
  lemma {:induction false} SplitJoin(s: Bytes, sep: Bytes)
    requires |sep| > 0
    ensures Join(Split(s, sep), sep) == s
    decreases |s|
  {
    var i := Find(s, sep);
    if i >= 0 {
      var rest := s[i + |sep|..];
      SplitJoin(rest, sep);
      SplitStep(s, sep);
      JoinCons(s[..i], Split(rest, sep), sep);
      AroundOccurrence(s, sep, i);
    }
  }

  /** One step of the split: the text before the first separator, then the
      split of the rest. */
  lemma SplitStep(s: Bytes, sep: Bytes)
    requires |sep| > 0 && Find(s, sep) >= 0
    ensures Split(s, sep) == [s[..Find(s, sep)]] + Split(s[Find(s, sep) + |sep|..], sep)
  {
  }

  lemma JoinCons(a: Bytes, xs: seq<Bytes>, sep: Bytes)
    requires |xs| >= 1
    ensures Join([a] + xs, sep) == a + sep + Join(xs, sep)
  {
    assert ([a] + xs)[1..] == xs;
  }

  lemma AroundOccurrence(s: Bytes, pat: Bytes, i: int)
    requires OccursAt(s, pat, i)
    ensures s == s[..i] + pat + s[i + |pat|..]
  {
    assert s == s[..i] + s[i..i + |pat|] + s[i + |pat|..];
  }

  /** No piece of a split contains the separator. */
  lemma {:induction false} SplitPiecesFree(s: Bytes, sep: Bytes)
    requires |sep| > 0
    ensures forall k | 0 <= k < |Split(s, sep)| :: !Contains(Split(s, sep)[k], sep)
    decreases |s|
  {
    var i := Find(s, sep);
    if i >= 0 {
      var rest := s[i + |sep|..];
      SplitPiecesFree(rest, sep);
      NoneBeforeFirst(s, sep);
      var r := Split(s, sep);
      assert r[1..] == Split(rest, sep);
      forall k | 1 <= k < |r|
        ensures !Contains(r[k], sep)
      {
        assert r[k] == Split(rest, sep)[k - 1];
      }
    }
  }

  /** The first piece of a split is the text before the first separator, or
      all of the input when there is none. */
  lemma SplitFirst(s: Bytes, sep: Bytes)
    requires |sep| > 0
    ensures var f := Split(s, sep)[0];
      f <= s && !Contains(f, sep) && (f == s || OccursAt(s, sep, |f|))
  {
    if Find(s, sep) >= 0 {
      NoneBeforeFirst(s, sep);
    }
  }

  /** f is the text of s from i up to the next separator or the end. */
  predicate PieceFrom(s: Bytes, sep: Bytes, i: int, f: Bytes) {
    0 <= i <= |s| && f <= s[i..] && !Contains(f, sep) && (i + |f| == |s| || OccursAt(s, sep, i + |f|))
  }

  /** The second piece of a split is the text after the first separator, up
      to the next separator or the end. */
  lemma SplitSecond(s: Bytes, sep: Bytes)
    requires |sep| > 0 && Contains(s, sep)
    ensures PieceFrom(s, sep, Find(s, sep) + |sep|, Split(s, sep)[1])
  {
    var i := Find(s, sep) + |sep|;
    SplitStep(s, sep);
    assert Split(s, sep)[1] == Split(s[i..], sep)[0];
    PieceAt(s, sep, i);
  }

  /** The first piece of the split of s[i..] runs from i to the next
      separator or the end. */
  lemma PieceAt(s: Bytes, sep: Bytes, i: nat)
    requires |sep| > 0 && i <= |s|
    ensures PieceFrom(s, sep, i, Split(s[i..], sep)[0])
  {
    SplitFirst(s[i..], sep);
    PieceShift(s, sep, i, Split(s[i..], sep)[0]);
  }

  /** A piece of s[i..] that starts at its beginning is a piece of s from i. */
  lemma PieceShift(s: Bytes, sep: Bytes, i: nat, f: Bytes)
    requires i <= |s| && f <= s[i..] && !Contains(f, sep) && (f == s[i..] || OccursAt(s[i..], sep, |f|))
    ensures PieceFrom(s, sep, i, f)
  {
    if f != s[i..] {
      OccursInSuffix(s, sep, i, |f|);
    }
  }

  /** A pattern that shares no byte with the separator and occurs in the
      joined text occurs inside one of the pieces. */
  lemma {:induction false} OccursInPiece(xs: seq<Bytes>, sep: Bytes, pat: Bytes, k: int)
    requires |xs| >= 1 && |sep| > 0 && |pat| > 0
    requires forall b | b in pat :: b !in sep
    requires OccursAt(Join(xs, sep), pat, k)
    ensures exists j | 0 <= j < |xs| :: Contains(xs[j], pat)
    decreases |xs|
  {
    var s := Join(xs, sep);
    if |xs| == 1 {
      assert Contains(xs[0], pat);
    } else {
      var a := xs[0];
      var rest := Join(xs[1..], sep);
      assert s == a + sep + rest;
      Placement(a, sep, rest, pat, k);
      if k + |pat| <= |a| {
        assert s[..|a|] == a;
        assert a[k..k + |pat|] == s[k..k + |pat|];
        assert OccursAt(a, pat, k);
      } else {
        var d := |a| + |sep|;
        assert k >= d;
        assert s[d..] == rest;
        assert rest[k - d..k - d + |pat|] == s[k..k + |pat|];
        OccursInPiece(xs[1..], sep, pat, k - d);
        var j :| 0 <= j < |xs| - 1 && Contains(xs[1..][j], pat);
        assert Contains(xs[j + 1], pat);
      }
    }
  }

  /** An occurrence of pat in a + sep + rest lies within a, within rest, or
      shares a byte with sep. */
  lemma Placement(a: Bytes, sep: Bytes, rest: Bytes, pat: Bytes, k: int)
    requires |sep| > 0 && |pat| > 0 && OccursAt(a + sep + rest, pat, k)
    ensures k + |pat| <= |a| || k >= |a| + |sep| ||
      exists q | 0 <= q < |pat| :: pat[q] in pat && pat[q] in sep
  {
    if |a| < k + |pat| && k < |a| + |sep| {
      var s := a + sep + rest;
      var q := if k < |a| then |a| else k;
      assert s[q] == s[k..k + |pat|][q - k] == pat[q - k];
      assert s[q] == (a + sep)[q] == sep[q - |a|];
      assert pat[q - k] in pat && pat[q - k] in sep;
    }
  }

  /** When pat does not occur in pre followed by all but the last byte of
      pat, its first occurrence in pre + pat + rest is right after pre. */
  lemma FindAfter(pre: Bytes, pat: Bytes, rest: Bytes)
    requires |pat| > 0 && !Contains(pre + pat[..|pat| - 1], pat)
    ensures Find(pre + pat + rest, pat) == |pre|
  {
    var s := pre + pat + rest;
    var n := |pre| + |pat| - 1;
    assert s[|pre|..|pre| + |pat|] == pat;
    assert OccursAt(s, pat, |pre|);
    var i := Find(s, pat);
    if 0 <= i < |pre| {
      assert s[..n] == pre + pat[..|pat| - 1];
      assert s[..n][i..i + |pat|] == s[i..i + |pat|];
      assert OccursAt(s[..n], pat, i);
    }
  }

  /** The last occurrence of a pattern that ends a text is at its end. */
  lemma RFindEnd(x: Bytes, pat: Bytes)
    ensures RFind(x + pat, pat) == |x|
  {
    assert (x + pat)[|x|..|x| + |pat|] == pat;
    assert OccursAt(x + pat, pat, |x|);
  }

  // ---------------------------------------------------------------------
  // The parts of a body and the lines of a part

  /** A part the parser takes as the file part: it carries both
      `Content-Disposition: form-data` and `filename=`. */
  predicate IsFilePart(part: Bytes) {
    Contains(part, FormData) && Contains(part, FilenameKey)
  }

  /** No part is a file part. */
  predicate NoFilePart(parts: seq<Bytes>) {
    forall k | 0 <= k < |parts| :: !IsFilePart(parts[k])
  }

  /** parts[k] is the first file part. */
  predicate FirstFilePartAt(parts: seq<Bytes>, k: int) {
    0 <= k < |parts| && IsFilePart(parts[k]) && forall j | 0 <= j < k :: !IsFilePart(parts[j])
  }

  /** The outer loop of parse_multipart_data: the position of the first
      file part, or the number of parts when there is none. */
  function FirstFilePart(parts: seq<Bytes>): (r: nat)
    ensures r <= |parts| && (r < |parts| ==> FirstFilePartAt(parts, r))
    ensures r == |parts| ==> forall k | 0 <= k < |parts| :: !IsFilePart(parts[k])
  {
    if parts == [] then 0
    else if IsFilePart(parts[0]) then 0
    else 1 + FirstFilePart(parts[1..])
  }

  /** There is one first file part. */
  lemma FirstFilePartUnique(parts: seq<Bytes>, k: int)
    requires FirstFilePartAt(parts, k)
    ensures k == FirstFilePart(parts)
  {
  }

  /** lines[k] is the first line that contains `filename=`. */
  predicate FirstNamedAt(lines: seq<Bytes>, k: int) {
    0 <= k < |lines| && Contains(lines[k], FilenameKey) && forall j | 0 <= j < k :: !Contains(lines[j], FilenameKey)
  }

  /** The inner loop of parse_multipart_data: the position of the first
      line that contains `filename=`, or the number of lines. */
  function FirstNamedLine(lines: seq<Bytes>): (r: nat)
    ensures r <= |lines| && (r < |lines| ==> FirstNamedAt(lines, r))
    ensures r == |lines| ==> forall k | 0 <= k < |lines| :: !Contains(lines[k], FilenameKey)
  {
    if lines == [] then 0
    else if Contains(lines[0], FilenameKey) then 0
    else 1 + FirstNamedLine(lines[1..])
  }

  /** There is one first line that names the file. */
  lemma FirstNamedUnique(lines: seq<Bytes>, k: int)
    requires FirstNamedAt(lines, k)
    ensures k == FirstNamedLine(lines)
  {
  }

  /** content_type.split("boundary=")[1]: the text after the first
      `boundary=` up to the next one or the end; none when there is no
      `boundary=` (the failing index is caught). */
  function Boundary(contentType: Bytes): (r: Option<Bytes>)
    ensures r.None? <==> !Contains(contentType, BoundaryKey)
    ensures r.Some? ==> PieceFrom(contentType, BoundaryKey, Find(contentType, BoundaryKey) + |BoundaryKey|, r.value)
  {
    var pieces := Split(contentType, BoundaryKey);
    if |pieces| < 2 then None
    else
      SplitSecond(contentType, BoundaryKey);
      Some(pieces[1])
  }

  /** line.split(b'filename="')[1].split(b'"')[0]: the text after the first
      `filename="` up to the next quote, the next `filename="` or the end
      of the line; none when the line has no `filename="`, where the source
      raises an IndexError that the parser catches. */
  function FilenameOf(line: Bytes): (r: Option<Bytes>)
    ensures r.None? <==> !Contains(line, FilenameOpen)
    ensures r.Some? ==> NameAt(line, Find(line, FilenameOpen) + |FilenameOpen|, r.value)
  {
    var pieces := Split(line, FilenameOpen);
    if |pieces| < 2 then None
    else
      NameOfSecondPiece(line);
      Some(Split(pieces[1], [QUOTE])[0])
  }

  lemma NameOfSecondPiece(line: Bytes)
    requires Contains(line, FilenameOpen)
    ensures |Split(line, FilenameOpen)| >= 2
    ensures NameAt(line, Find(line, FilenameOpen) + |FilenameOpen|, Split(Split(line, FilenameOpen)[1], [QUOTE])[0])
  {
    var f := Split(line, FilenameOpen)[1];
    SplitSecond(line, FilenameOpen);
    SplitFirst(f, [QUOTE]);
    UpToQuote(line, Find(line, FilenameOpen) + |FilenameOpen|, f, Split(f, [QUOTE])[0]);
  }

  /** n is the text at line[i..] up to a quote, a `filename="` or the end
      of the line, and holds no quote. */
  predicate NameAt(line: Bytes, i: int, n: Bytes) {
    0 <= i <= |line| && n <= line[i..] && QUOTE !in n
    && (i + |n| == |line| || line[i + |n|] == QUOTE || OccursAt(line, FilenameOpen, i + |n|))
  }

  /** A prefix n of the text f that starts at i in line, cut at a quote or
      at the end of f, is a prefix of line[i..] cut at a quote or wherever
      f ended. */
  lemma UpToQuote(line: Bytes, i: nat, f: Bytes, n: Bytes)
    requires i <= |line| && f <= line[i..] && (i + |f| == |line| || OccursAt(line, FilenameOpen, i + |f|))
    requires n <= f && !Contains(n, [QUOTE]) && (n == f || OccursAt(f, [QUOTE], |n|))
    ensures NameAt(line, i, n)
  {
    if QUOTE in n {
      var k :| 0 <= k < |n| && n[k] == QUOTE;
      assert n[k..k + 1] == [QUOTE];
      assert OccursAt(n, [QUOTE], k);
    }
    if n != f {
      assert f[|n|..|n| + 1] == [QUOTE];
      assert line[i..][|n|] == f[|n|];
    }
  }

  /** UTF-8 well-formedness as a strict decoder checks it (RFC 3629,
      section 4): what bytes.decode() accepts. */
  predicate ValidUtf8(s: Bytes)
    decreases |s|
  {
    if s == [] then true
    else if s[0] < 0x80 then ValidUtf8(s[1..])
    else if 0xC2 <= s[0] <= 0xDF then
      |s| >= 2 && Cont(s[1]) && ValidUtf8(s[2..])
    else if 0xE0 <= s[0] <= 0xEF then
      |s| >= 3 && Cont(s[2])
      && (if s[0] == 0xE0 then 0xA0 <= s[1] <= 0xBF
          else if s[0] == 0xED then 0x80 <= s[1] <= 0x9F
          else Cont(s[1]))
      && ValidUtf8(s[3..])
    else if 0xF0 <= s[0] <= 0xF4 then
      |s| >= 4 && Cont(s[2]) && Cont(s[3])
      && (if s[0] == 0xF0 then 0x90 <= s[1] <= 0xBF
          else if s[0] == 0xF4 then 0x80 <= s[1] <= 0x8F
          else Cont(s[1]))
      && ValidUtf8(s[4..])
    else false
  }

  /** A UTF-8 continuation byte. */
  predicate Cont(b: byte) {
    0x80 <= b <= 0xBF
  }

  /** The file data of a part: from after the first blank line to the last
      CRLF, as the source computes it. When the part ends in a blank line
      the two positions coincide and the else branch keeps the final CRLF. */
  function DataAsWritten(part: Bytes): Bytes {
    var start := Find(part, BlankLine) + 4;
    var end := RFind(part, CRLF);
    if end > start then part[start..end]
    else if start <= |part| then part[start..] else []
  }

  /** The file data of a part, with the empty data between the blank line
      and a closing CRLF that ends the part taken as empty. */
  function PartData(part: Bytes): Bytes {
    var start := Find(part, BlankLine) + 4;
    var end := RFind(part, CRLF);
    if end > start || (end == start && end + 2 == |part|) then part[start..end]
    else if start <= |part| then part[start..] else []
  }

  /** The data as written and the corrected data differ only when the data
      start at a CRLF that closes the part: the code as written then keeps
      that CRLF, the corrected rule keeps nothing. A part cut short whose
      data begin with a CRLF keeps the data as written under both rules. */
  lemma DataRulesDiffer(part: Bytes)
    ensures var start := Find(part, BlankLine) + 4; var end := RFind(part, CRLF);
      (end != start || end + 2 != |part| ==> DataAsWritten(part) == PartData(part))
      && (end == start && end + 2 == |part| ==> PartData(part) == [] && DataAsWritten(part) == CRLF)
  {
    var start := Find(part, BlankLine) + 4;
    var end := RFind(part, CRLF);
    if end == start && end + 2 == |part| {
      assert part[start..] == part[end..end + 2];
    }
  }

  /** A part cut short before its closing delimiter, whose data begin with
      a CRLF, keeps those data under the corrected rule, as written. */
  lemma CutShortPartKept(headers: Bytes, rest: Bytes)
    requires HeaderBlock(headers) && !Contains(rest, CRLF) && |rest| > 0
    ensures PartData(headers + BlankLine + CRLF + rest) == CRLF + rest
    ensures DataAsWritten(headers + BlankLine + CRLF + rest) == CRLF + rest
  {
    var part := headers + BlankLine + CRLF + rest;
    assert BlankLine[..3] == [CR, LF, CR];
    assert part == headers + BlankLine + (CRLF + rest);
    FindAfter(headers, BlankLine, CRLF + rest);
    RFindCut(headers + BlankLine, rest);
    assert part[|headers| + 4..] == CRLF + rest;
  }

  /** In a text, a CRLF and a tail free of CRLF, the last CRLF is the one
      before the tail. */
  lemma RFindCut(front: Bytes, rest: Bytes)
    requires !Contains(rest, CRLF)
    ensures RFind(front + CRLF + rest, CRLF) == |front|
  {
    var s := front + CRLF + rest;
    assert s[|front|..|front| + 2] == CRLF;
    assert OccursAt(s, CRLF, |front|);
    forall k | |front| < k
      ensures !OccursAt(s, CRLF, k)
    {
      if k == |front| + 1 && k + 2 <= |s| {
        assert s[k] == LF;
      } else if |front| + 2 <= k && k + 2 <= |s| {
        var j := k - |front| - 2;
        assert !OccursAt(rest, CRLF, j);
        assert s[k..k + 2] == rest[j..j + 2];
      }
    }
  }

  /** A header block whose end the first blank line marks. */
  predicate HeaderBlock(headers: Bytes) {
    !Contains(headers + [CR, LF, CR], BlankLine)
  }

  /** A part of headers, a blank line, the content and a closing CRLF gives
      back the content, empty or not. */
  lemma PartDataRoundTrip(headers: Bytes, content: Bytes)
    requires HeaderBlock(headers)
    ensures PartData(headers + BlankLine + content + CRLF) == content
  {
    var part := headers + BlankLine + content + CRLF;
    assert BlankLine[..3] == [CR, LF, CR];
    FindAfter(headers, BlankLine, content + CRLF);
    assert part == headers + BlankLine + (content + CRLF);
    RFindEnd(headers + BlankLine + content, CRLF);
    assert part[|headers| + 4..|part| - 2] == content;
  }

  /** As written, a non-empty content comes back unchanged. */
  lemma DataAsWrittenRoundTrip(headers: Bytes, content: Bytes)
    requires HeaderBlock(headers) && |content| > 0
    ensures DataAsWritten(headers + BlankLine + content + CRLF) == content
  {
    PartDataRoundTrip(headers, content);
  }

  /** As written, an empty file comes back as the two bytes of the closing
      CRLF instead of as no data. */
  lemma DataAsWrittenEmptyFile(headers: Bytes)
    requires HeaderBlock(headers)
    ensures DataAsWritten(headers + BlankLine + CRLF) == CRLF
  {
    var part := headers + BlankLine + CRLF;
    assert BlankLine[..3] == [CR, LF, CR];
    FindAfter(headers, BlankLine, CRLF);
    RFindEnd(headers + BlankLine, CRLF);
    assert part[|headers| + 4..] == CRLF;
  }

  // ---------------------------------------------------------------------
  // parse_multipart_data

  /** The result of parse_multipart_data: (None, None), or the file data and
      the file name, which the source leaves None when no line names it. */
  datatype Multipart = NoFile | FileFound(data: Bytes, filename: Option<Bytes>)

  /** `filename=` occurs in some line of a part that contains it, since
      the pattern holds neither CR nor LF. */
  lemma KeyInSomeLine(part: Bytes)
    ensures Contains(part, FilenameKey) ==> FirstNamedLine(Split(part, CRLF)) < |Split(part, CRLF)|
  {
    if Contains(part, FilenameKey) {
      var lines := Split(part, CRLF);
      var q :| OccursAt(part, FilenameKey, q);
      SplitJoin(part, CRLF);
      OccursInPiece(lines, CRLF, FilenameKey, q);
    }
  }

  /** The file data and name of the file part: the name comes from the
      first line that contains `filename=`; a line without `filename="`
      or a name that is not UTF-8 makes the whole parse fail. */
  function ParsePart(part: Bytes): (r: Multipart)
    ensures Contains(part, FilenameKey) ==> r.NoFile? || r.filename.Some?
    ensures r.FileFound? ==> r.data == PartData(part)
    ensures forall k | FirstNamedAt(Split(part, CRLF), k) ::
      var name := FilenameOf(Split(part, CRLF)[k]);
      (r.NoFile? <==> name.None? || !ValidUtf8(name.value)) && (r.FileFound? ==> r.filename == name)
  {
    var lines := Split(part, CRLF);
    var k := FirstNamedLine(lines);
    KeyInSomeLine(part);
    FirstNamedAtIsFirst(lines);
    if k == |lines| then FileFound(PartData(part), None)
    else
      match FilenameOf(lines[k])
      case None => NoFile
      case Some(name) =>
        if ValidUtf8(name) then FileFound(PartData(part), Some(name)) else NoFile
  }

  lemma FirstNamedAtIsFirst(lines: seq<Bytes>)
    ensures forall k | FirstNamedAt(lines, k) :: k == FirstNamedLine(lines)
  {
    forall k | FirstNamedAt(lines, k)
      ensures k == FirstNamedLine(lines)
    {
      FirstNamedUnique(lines, k);
    }
  }

  lemma FirstFilePartAtIsFirst(parts: seq<Bytes>)
    ensures forall k | FirstFilePartAt(parts, k) :: k == FirstFilePart(parts)
    ensures NoFilePart(parts) ==> FirstFilePart(parts) == |parts|
  {
    var r := FirstFilePart(parts);
    if r < |parts| {
      assert IsFilePart(parts[r]);
    }
    forall k | FirstFilePartAt(parts, k)
      ensures k == FirstFilePart(parts)
    {
      FirstFilePartUnique(parts, k);
    }
  }

  /** parse_multipart_data: the body split at `--` and the boundary; the
      first part that carries both markers decides the result and later
      parts are ignored; no boundary or no such part gives (None, None). */
  function ParseMultipart(body: Bytes, contentType: Bytes): (r: Multipart)
    ensures Boundary(contentType).None? ==> r == NoFile
    ensures Boundary(contentType).Some? ==>
      var parts := Split(body, Dashes + Boundary(contentType).value);
      (NoFilePart(parts) ==> r == NoFile)
      && forall k | FirstFilePartAt(parts, k) :: r == ParsePart(parts[k])
    ensures r.FileFound? ==> r.filename.Some?
  {
    match Boundary(contentType)
    case None => NoFile
    case Some(boundary) =>
      var parts := Split(body, Dashes + boundary);
      var k := FirstFilePart(parts);
      FirstFilePartAtIsFirst(parts);
      if k == |parts| then NoFile
      else ParsePart(parts[k])
  }

  // ---------------------------------------------------------------------
  // get_file_name_and_data

  /** ASCII lower-casing of one byte. */
  function LowerByte(b: byte): byte {
    if 'A' as int <= b as int <= 'Z' as int then b + 32 else b
  }

  /** str.lower() on the file name, for its ASCII letters. */
  function Lower(s: Bytes): (r: Bytes)
    ensures |r| == |s|
    ensures forall i | 0 <= i < |s| :: r[i] == LowerByte(s[i])
  {
    if s == [] then [] else [LowerByte(s[0])] + Lower(s[1..])
  }

  /** Lower-casing leaves no ASCII capital and changes nothing a second
      time. */
  lemma LowerIdempotent(s: Bytes)
    ensures forall i | 0 <= i < |s| :: !('A' as int <= Lower(s)[i] as int <= 'Z' as int)
    ensures Lower(Lower(s)) == Lower(s)
  {
  }

  /** The loop of os.path.splitext that skips the leading dots of the base
      name: whether a byte other than a dot lies in p[from..dot]. */
  function NonDotBefore(p: Bytes, from: nat, dot: nat): (b: bool)
    requires from <= dot <= |p|
    ensures b <==> exists k | from <= k < dot :: p[k] != DOT
    decreases dot - from
  {
    if from == dot then false
    else if p[from] != DOT then true
    else NonDotBefore(p, from + 1, dot)
  }

  /** os.path.splitext on a POSIX path: the extension starts at the last dot
      after the last slash, unless only dots precede it in the base name. */
  function SplitExt(p: Bytes): (r: (Bytes, Bytes))
    ensures r.0 + r.1 == p
    ensures r.1 == [] || (r.1[0] == DOT && DOT !in r.1[1..] && SLASH !in r.1)
    ensures var slash := RFind(p, [SLASH]);
      r.1 != [] ==> exists k | slash < k < |r.0| :: p[k] != DOT
    ensures var slash := RFind(p, [SLASH]); var dot := RFind(p, [DOT]);
      r.1 == [] && dot > slash ==> forall k | slash < k < dot :: p[k] == DOT
  {
    var slash := RFind(p, [SLASH]);
    var dot := RFind(p, [DOT]);
    if dot > slash && NonDotBefore(p, slash + 1, dot) then
      LastDot(p, slash, dot);
      (p[..dot], p[dot..])
    else
      (p, [])
  }

  /** The text from the last dot, when that dot follows the last slash,
      starts with the dot and holds no other dot and no slash. */
  lemma LastDot(p: Bytes, slash: int, dot: int)
    requires slash == RFind(p, [SLASH]) && dot == RFind(p, [DOT]) && dot > slash
    ensures 0 <= dot < |p| && p[..dot] + p[dot..] == p
    ensures p[dot..][0] == DOT && DOT !in p[dot..][1..] && SLASH !in p[dot..]
  {
    assert OccursAt(p, [DOT], dot);
    assert p[dot..dot + 1] == [DOT];
    var e := p[dot..];
    forall j | 1 <= j < |e|
      ensures e[j] != DOT && e[j] != SLASH && e[1..][j - 1] == e[j]
    {
      var k := dot + j;
      assert !OccursAt(p, [DOT], k) && !OccursAt(p, [SLASH], k);
      assert p[k..k + 1] == [p[k]];
    }
    assert e[0] == p[dot..dot + 1][0];
  }

  /** The extension get_file_name_and_data checks: that of the lower-cased
      file name. */
  function Extension(filename: Bytes): (e: Bytes)
    ensures EndsWith(Lower(filename), e) && (e == [] || e[0] == DOT)
  {
    var split := SplitExt(Lower(filename));
    assert Lower(filename) == split.0 + split.1;
    split.1
  }

  /** s ends with x. */
  predicate EndsWith(s: Bytes, x: Bytes) {
    |x| <= |s| && s[|s| - |x|..] == x
  }

  /** _CONTENT_MAPPING: the accepted extensions (`.jpg`, `.jpeg`, `.png`,
      `.gif`) and their content types. */
  const ContentMapping: map<Bytes, string> := map[
    [0x2E, 0x6A, 0x70, 0x67] := "image/jpeg",
    [0x2E, 0x6A, 0x70, 0x65, 0x67] := "image/jpeg",
    [0x2E, 0x70, 0x6E, 0x67] := "image/png",
    [0x2E, 0x67, 0x69, 0x66] := "image/gif"
  ]

  /** The messages of the client errors: "Content-Type must be
      multipart/form-data", "No file provided" and "File type {ext} not
      allowed". */
  datatype ClientMessage = BadContentType | NoFileProvided | TypeNotAllowed(ext: Bytes)

  /** HTTPClientError: a status code and a message. */
  datatype ClientError = ClientError(statusCode: int, message: ClientMessage)

  /** The file data, the file name and the lower-cased extension. */
  datatype Upload = Upload(data: Bytes, filename: Bytes, ext: Bytes)

  datatype Result<T> = Ok(value: T) | Err(error: ClientError)

  /** The "headers" field of the request event: absent, JSON null, or a map
      from header name to value. */
  datatype Headers = NoHeaders | NullHeaders | HeaderMap(fields: map<string, Bytes>)

  /** The content type the request handler reads:
      event.get("headers", {}).get("content-type", ""). A null headers field
      makes the second get raise (None). */
  function ContentTypeOf(headers: Headers): (r: Option<Bytes>)
    ensures r.None? <==> headers.NullHeaders?
    ensures headers.HeaderMap? && "content-type" in headers.fields ==> r == Some(headers.fields["content-type"])
    ensures headers.NoHeaders? || (headers.HeaderMap? && "content-type" !in headers.fields) ==> r == Some([])
  {
    match headers
    case NoHeaders => Some([])
    case NullHeaders => None
    case HeaderMap(h) => if "content-type" in h then Some(h["content-type"]) else Some([])
  }

  /** get_file_name_and_data: a content type without multipart/form-data, a
      request without file data or file name, or an extension outside
      _CONTENT_MAPPING is a 400 client error; otherwise the upload. */
  function GetFileNameAndData(contentType: Bytes, body: Bytes): (r: Result<Upload>)
    ensures r.Err? ==> r.error.statusCode == 400
    ensures r == Err(ClientError(400, BadContentType)) <==> !Contains(contentType, MultipartType)
    ensures r == Err(ClientError(400, NoFileProvided)) <==>
      (Contains(contentType, MultipartType)
       && !(ParseMultipart(body, contentType).FileFound? && ParseMultipart(body, contentType).data != []
            && ParseMultipart(body, contentType).filename.value != []))
    ensures r.Ok? <==>
      (Contains(contentType, MultipartType)
       && ParseMultipart(body, contentType).FileFound? && ParseMultipart(body, contentType).data != []
       && ParseMultipart(body, contentType).filename.value != []
       && Extension(ParseMultipart(body, contentType).filename.value) in ContentMapping)
    ensures r.Ok? ==> var u := r.value;
      u.data != [] && u.filename != [] && u.ext in ContentMapping
      && FileFound(u.data, Some(u.filename)) == ParseMultipart(body, contentType)
      && u.ext == Extension(u.filename) && |u.ext| > 0 && u.ext[0] == DOT && EndsWith(Lower(u.filename), u.ext)
    ensures r.Err? && r.error.message.TypeNotAllowed? ==>
      var name := ParseMultipart(body, contentType).filename.value;
      r.error.message.ext == Extension(name) && Extension(name) !in ContentMapping
  {
    if !Contains(contentType, MultipartType) then Err(ClientError(400, BadContentType))
    else
      var parsed := ParseMultipart(body, contentType);
      if parsed.NoFile? || parsed.data == [] || parsed.filename.None? || parsed.filename.value == [] then
        Err(ClientError(400, NoFileProvided))
      else
        var name := parsed.filename.value;
        var ext := Extension(name);
        if ext !in ContentMapping then
          Err(ClientError(400, TypeNotAllowed(ext)))
        else
          EmptyNotMapped();
          Ok(Upload(parsed.data, name, ext))
  }

  lemma EmptyNotMapped()
    ensures [] !in ContentMapping
  {
  }

  // ---------------------------------------------------------------------
  // The object the request handler stores

  /** What lambda_handler hands to put_object: the key and the content
      type. */
  datatype StoredObject = StoredObject(key: Bytes, data: Bytes, contentType: string)

  /** The upload path of lambda_handler: an accepted upload is stored under
      uploads/ with the content type of its extension, and the lookup in
      _CONTENT_MAPPING cannot fail; a client error keeps its status code. */
  function UploadObject(contentType: Bytes, body: Bytes): (r: Result<StoredObject>)
    ensures r.Err? <==> GetFileNameAndData(contentType, body).Err?
    ensures r.Err? ==> r.error == GetFileNameAndData(contentType, body).error
    ensures r.Ok? ==> var u := GetFileNameAndData(contentType, body).value;
      r.value.key == UploadsPrefix + u.filename && r.value.data == u.data
      && r.value.contentType in {"image/jpeg", "image/png", "image/gif"}
  {
    match GetFileNameAndData(contentType, body)
    case Err(e) => Err(e)
    case Ok(u) =>
      MappedTypes(u.ext);
      Ok(StoredObject(UploadsPrefix + u.filename, u.data, ContentMapping[u.ext]))
  }

  /** Every accepted extension maps to an image content type. */
  lemma MappedTypes(ext: Bytes)
    requires ext in ContentMapping
    ensures ContentMapping[ext] in {"image/jpeg", "image/png", "image/gif"}
  {
  }

  // ---------------------------------------------------------------------
  // The request handler's answer

  /** What lambda_handler answers for a POST: the stored object, a client
      error, or the internal error it reports for any other exception. */
  datatype Reply = Stored(obj: StoredObject) | ClientFailed(error: ClientError) | InternalFailure

  /** The status code of a reply. */
  function StatusOf(r: Reply): int {
    match r
    case Stored(_) => 200
    case ClientFailed(e) => e.statusCode
    case InternalFailure => 500
  }

  /** lambda_handler on a POST whose S3 upload succeeds: a null headers field
      is an internal error (500); otherwise the reply is the outcome of the
      upload path, 200 when the object is stored and 400 for a client
      error. */
  function HandleUpload(headers: Headers, body: Bytes): (r: Reply)
    ensures r.InternalFailure? <==> headers.NullHeaders?
    ensures !headers.NullHeaders? ==>
      var outcome := UploadObject(ContentTypeOf(headers).value, body);
      (r.Stored? <==> outcome.Ok?)
      && (r.Stored? ==> r.obj == outcome.value)
      && (r.ClientFailed? ==> r.error == outcome.error)
    ensures StatusOf(r) == 500 <==> headers.NullHeaders?
    ensures StatusOf(r) == 200 <==> r.Stored?
    ensures r.ClientFailed? ==> StatusOf(r) == 400
  {
    match ContentTypeOf(headers)
    case None => InternalFailure
    case Some(contentType) =>
      match UploadObject(contentType, body)
      case Ok(obj) => Stored(obj)
      case Err(e) => ClientFailed(e)
  }
}
