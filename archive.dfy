/**
 * The checks and the header splicing of the front end: whether a buffer is
 * an artifact (`is_compressed_file`) or a folder archive
 * (`is_compressed_folder`, `is_compressed_folder_header`), how a new file is
 * spliced into an existing archive (`add_data_to_folder_data`), and how
 * several files are gathered into one archive (`check_args`,
 * `compress_files_to_one_file`).  A check returns the empty text for "valid"
 * and a message otherwise, as the program does.
 */
module Archive {
  import opened Bytes
  import opened TreeNode
  import opened Huffman
  import opened Rle
  import opened RleExtract
  import opened Compress
  import opened RoundTrip
  import FolderRoundTrip

  const NOT_FORMAT: Bytes := Ascii("file not in compressed format")
  const HEADER_PROBLEM: Bytes := Ascii("problem with the compressed file header")
  const NOT_FOLDER: Bytes := Ascii("folder not in compressed format")

  /** What a check ends with: the text it returns (empty for "valid"), or an exception it lets escape. */
  datatype Verdict = Verdict(text: Bytes) | Throws

  // ---------------------------------------------------------------------------
  // is_compressed_file
  // ---------------------------------------------------------------------------

  /** The text is a number to Python: it decodes, and `int()` reads it. */
  predicate IsNumber(s: Bytes)
  {
    IsUtf8(s) && ParseInt(s).Some?
  }

  /** The method tag of a first line: its first three bytes, `line[:3]`. */
  function Tag(line: Bytes): (r: Bytes)
    ensures |line| >= 3 ==> r == line[..3]
  {
    Slice(line, 0, 3)
  }

  /**
   * The words the RLE check reads: the comma-separated counts of line 2 (none
   * at all when the first of them is empty), then line 1.
   */
  function SizeWords(lines: seq<Bytes>): (w: seq<Bytes>)
    requires |lines| >= 3
  {
    var sizes := Split(lines[2], [COMMA]);
    (if sizes[0] == [] then [] else sizes) + [lines[1]]
  }

  /** What `is_compressed_file` returns for `data`. */
  function FileVerdict(data: Bytes): Verdict
  {
    var lines := Split(data, CRLF);
    if |lines| < 2 then Verdict(NOT_FORMAT)
    else if Tag(lines[0]) != Ascii("HUF") && Tag(lines[0]) != Ascii("RLE") then Verdict(NOT_FORMAT)
    else if |lines[0]| < 5 || lines[0][3] != COMMA then Verdict(NOT_FORMAT)
    else if Tag(lines[0]) == Ascii("RLE") then
      if |lines| < 3 then Throws
      else if forall i :: 0 <= i < |SizeWords(lines)| ==> IsNumber(SizeWords(lines)[i]) then Verdict([])
      else Verdict(NOT_FORMAT)
    else if |Split(lines[1], [COMMA])| < 2 then Verdict(NOT_FORMAT)
    else Verdict([])
  }

  /**
   * `is_compressed_file`: at least two CRLF lines, a first line of at least
   * five bytes starting with `HUF` or `RLE` and a comma; for RLE every count
   * and the repeat size must be numbers (line 2 missing raises), for HUF the
   * tree line must hold a comma.
   */
  method IsCompressedFile(data: Bytes) returns (r: Verdict)
    ensures r == FileVerdict(data)
  {
    var dataSplit := Split(data, CRLF);
    if |dataSplit| < 2 {
      return Verdict(NOT_FORMAT);
    }
    var tag := Slice(dataSplit[0], 0, 3);
    if tag != Ascii("HUF") && tag != Ascii("RLE") {
      return Verdict(NOT_FORMAT);
    }
    if |dataSplit[0]| < 5 || dataSplit[0][3] != COMMA {
      return Verdict(NOT_FORMAT);
    }
    if tag == Ascii("RLE") {
      if |dataSplit| < 3 {
        return Throws;
      }
      var sizes := Split(dataSplit[2], [COMMA]);
      if sizes[0] == [] {
        sizes := [];
      }
      sizes := sizes + [dataSplit[1]];
      assert sizes == SizeWords(dataSplit);
      for i := 0 to |sizes|
        invariant forall j :: 0 <= j < i ==> IsNumber(sizes[j])
      {
        if !IsNumber(sizes[i]) {
          return Verdict(NOT_FORMAT);
        }
      }
      return Verdict([]);
    }
    var head := Split(dataSplit[1], [COMMA]);
    if |head| < 2 {
      return Verdict(NOT_FORMAT);
    }
    return Verdict([]);
  }

  /** A line that holds a comma splits on commas into at least two pieces. */
  lemma SplitCommaTwo(s: Bytes)
    requires COMMA in s
    ensures |Split(s, [COMMA])| >= 2
  {
    FindByte(s, COMMA);
  }

  /** The first line of an artifact passes the checks on line 0. */
  lemma FirstLineChecks(m: Method, ft: Bytes)
    requires ft != []
    ensures var h0 := MethodName(m) + [COMMA] + ft;
            Tag(h0) == MethodName(m) && |h0| >= 5 && h0[3] == COMMA
  {
    var h0 := MethodName(m) + [COMMA] + ft;
    assert h0[..3] == MethodName(m);
  }

  /**
   * Every HUF artifact passes `is_compressed_file`: its first line is
   * `HUF,<type>` and its tree line ends with a comma.
   */
  lemma HufArtifactIsCompressedFile(fileName: Bytes, data: Bytes)
    requires data != []
    requires var ft := FileType(fileName, Extension(fileName)); ft != [] && NoCrlf(ft) && IsUtf8(ft)
    ensures HufArtifact(fileName, HUF, data).Some?
    ensures FileVerdict(HufArtifact(fileName, HUF, data).value) == Verdict([])
  {
    var ft := FileType(fileName, Extension(fileName));
    HufArtifactShape(fileName, data);
    var root := HufRoot(data).value;
    var h0 := MethodName(HUF) + [COMMA] + ft;
    var h1 := Serial(HeadTree(root));
    HeaderLine(HUF, ft);
    FirstLineChecks(HUF, ft);
    MethodNamesDiffer();
    SerialNoCrlf(HeadTree(root));
    assert COMMA in h1 by {
      assert h1[|h1| - 1] == COMMA;
    }
    HufLinesAccepted(h0, h1, HufPayload(data));
  }

  /** A first line `HUF,…`, a tree line holding a comma, then anything: `is_compressed_file` accepts. */
  lemma HufLinesAccepted(h0: Bytes, h1: Bytes, p: Bytes)
    requires NoCrlf(h0) && NoCrlf(h1) && COMMA in h1
    requires Tag(h0) == Ascii("HUF") && |h0| >= 5 && h0[3] == COMMA
    ensures FileVerdict(h0 + CRLF + h1 + CRLF + p) == Verdict([])
  {
    SplitThree(h0, h1, p);
    SplitCommaTwo(h1);
  }

  /** The repeat size line is a number and holds no CRLF. */
  lemma RepeatLine(rs: nat)
    ensures IsNumber(Decimal(rs)) && NoCrlf(Decimal(rs))
  {
    DecimalNoComma(rs);
    AsciiIsUtf8(Decimal(rs));
    ParseDecimal(rs);
    var h1 := Decimal(rs);
    DecimalDigits(rs);
    forall i | 0 <= i < |h1| - 1 ensures h1[i] != CR {
      assert IsDigit(h1[i]);
    }
  }

  /** A count line the RLE check accepts: empty before its first comma, or all numbers. */
  predicate CountsLine(c: Bytes)
  {
    var sizes := Split(c, [COMMA]);
    sizes[0] == [] || forall i :: 0 <= i < |sizes| ==> IsNumber(sizes[i])
  }

  /** The count line of a run list is one decimal number per run. */
  lemma RunsCountsLine(runs: seq<Run>)
    requires runs != []
    ensures NoCrlf(DropLast(CountText(runs))) && CountsLine(DropLast(CountText(runs)))
  {
    CountLineOneLine(runs);
    CountTextWords(runs);
    var w := Words(runs);
    assert DropLast(CountText(runs)) == Join(w, [COMMA]);
    forall i | 0 <= i < |w| ensures COMMA !in w[i] && IsNumber(w[i]) {
      RepeatLine(runs[i].count);
      DecimalNoComma(runs[i].count);
    }
    SplitJoin(w, COMMA);
  }

  /** Lines of the RLE form pass the check when the repeat size and every count are numbers. */
  lemma RleLinesAccepted(ft: Bytes, rs: nat, c: Bytes, out: Bytes)
    requires ft != [] && NoCrlf(ft) && IsUtf8(ft)
    requires NoCrlf(c) && CountsLine(c)
    ensures FileVerdict(MethodName(RLE) + [COMMA] + ft + CRLF + Decimal(rs) + CRLF + (c + CRLF + out)) == Verdict([])
  {
    var h0 := MethodName(RLE) + [COMMA] + ft;
    var h1 := Decimal(rs);
    RleHeaderLine(ft);
    FirstLineChecks(RLE, ft);
    RepeatLine(rs);
    SplitThree(h0, h1, c + CRLF + out);
    SplitCrlf(c, out);
    var lines := Split(h0 + CRLF + h1 + CRLF + (c + CRLF + out), CRLF);
    assert lines[0] == h0 && lines[1] == h1 && lines[2] == c;
    var sizes := Split(c, [COMMA]);
    var sw := SizeWords(lines);
    forall i | 0 <= i < |sw| ensures IsNumber(sw[i]) {
      if i < |sw| - 1 { assert sizes[0] != [] && sw[i] == sizes[i]; }
    }
  }

  /**
   * An RLE artifact passes `is_compressed_file` when the file is empty, or
   * when the repeat size divides the 1000-byte chunk and the last chunk is
   * longer than the repeat size: its count line is one number per run.
   */
  lemma RleArtifactIsCompressedFile(fileName: Bytes, data: Bytes, rs: nat)
    requires rs >= 1 && (data == [] || (Fits(KILO, rs) && LastChunkLonger(data, rs)))
    requires var ft := FileType(fileName, Extension(fileName)); ft != [] && NoCrlf(ft) && IsUtf8(ft)
    ensures RleArtifact(fileName, RLE, data, rs).Some?
    ensures FileVerdict(RleArtifact(fileName, RLE, data, rs).value) == Verdict([])
  {
    var ft := FileType(fileName, Extension(fileName));
    RleArtifactNeedsRle(fileName, RLE, data, rs);
    if data == [] {
      assert RleBody(data, rs) == [] + CRLF + [];
      assert Split([], [COMMA]) == [[]];
      RleLinesAccepted(ft, rs, [], []);
    } else {
      var runs := ChunkRuns(data, rs);
      RleBodyRuns(data, rs);
      RunsCountsLine(runs);
      RleLinesAccepted(ft, rs, DropLast(CountText(runs)), RunBytes(runs));
    }
  }

  // ---------------------------------------------------------------------------
  // is_compressed_folder_header
  // ---------------------------------------------------------------------------

  /** `s.replace(c, "")`: every occurrence of the byte `c` removed. */
  function Remove(s: Bytes, c: byte): Bytes
  {
    if s == [] then [] else (if s[0] == c then [] else [s[0]]) + Remove(s[1..], c)
  }

  /** `s.count(c)`: how many times the byte `c` occurs in `s`. */
  function Count(s: Bytes, c: byte): nat
  {
    if s == [] then 0 else (if s[0] == c then 1 else 0) + Count(s[1..], c)
  }

  /** The sum of two amounts, when both are known. */
  function Plus(a: Option<int>, b: Option<int>): Option<int>
  {
    if a.Some? && b.Some? then Some(a.value + b.value) else None
  }

  /**
   * The inner loop of `is_compressed_folder_header` over the comma-separated
   * elements of one segment: the flag says the element is a name, to be
   * skipped; every other element must be read by `int()` and is added.
   */
  function ElementsSum(elements: seq<Bytes>, isName: bool): Option<int>
  {
    if elements == [] then Some(0)
    else if isName then ElementsSum(elements[1..], false)
    else Plus(ParseInt(elements[0]), ElementsSum(elements[1..], true))
  }

  /** The outer loop: each segment's elements summed, the flag starting on a name each time. */
  function SegmentsSum(segments: seq<Bytes>): Option<int>
  {
    if segments == [] then Some(0)
    else Plus(ElementsSum(Split(segments[0], [COMMA]), true), SegmentsSum(segments[1..]))
  }

  /** The segments of a header: its `]` removed, split on `[`, the part before the first `[` dropped. */
  function Segments(header: Bytes): seq<Bytes>
  {
    Split(Remove(header, CLOSE), [OPEN])[1..]
  }

  /** What `is_compressed_folder_header` returns: whether the header is well formed, and the bytes it declares. */
  datatype HeaderCount = HeaderCount(ok: bool, amount: int)

  /**
   * The header must decode, hold at least one `[` and as many `]` as `[`,
   * and every second element of each segment must be a number; it declares
   * the sum of those numbers.
   */
  function HeaderChecked(data: Bytes): HeaderCount
  {
    if !IsUtf8(data) then HeaderCount(false, 0)
    else if Count(data, OPEN) < 1 || Count(data, OPEN) != Count(data, CLOSE) then HeaderCount(false, 0)
    else match SegmentsSum(Segments(data))
      case None => HeaderCount(false, 0)
      case Some(n) => HeaderCount(true, n)
  }

  /** One segment of the outer loop: its elements' sum, then the later segments'. */
  lemma SegmentsStep(segs: seq<Bytes>, k: nat)
    requires k < |segs|
    ensures SegmentsSum(segs[k..]) == Plus(ElementsSum(Split(segs[k], [COMMA]), true), SegmentsSum(segs[k + 1..]))
  {
    assert segs[k..][1..] == segs[k + 1..];
  }

  /** One turn of the outer loop: the segment's sum is added, or the header is refused when it has none. */
  lemma SegmentsAdvance(all: seq<Bytes>, segs: seq<Bytes>, k: nat, amount0: int, ok: bool, amount: int)
    requires k < |segs| && SegmentsSum(all) == Plus(Some(amount0), SegmentsSum(segs[k..]))
    requires ok <==> ElementsSum(Split(segs[k], [COMMA]), true).Some?
    requires ok ==> amount == amount0 + ElementsSum(Split(segs[k], [COMMA]), true).value
    ensures ok ==> SegmentsSum(all) == Plus(Some(amount), SegmentsSum(segs[k + 1..]))
    ensures !ok ==> SegmentsSum(all).None?
  {
    SegmentsStep(segs, k);
  }

  /** One element of the inner loop: a name is skipped, a size is added. */
  lemma ElementsStep(es: seq<Bytes>, j: nat, isName: bool)
    requires j < |es|
    ensures ElementsSum(es[j..], isName) ==
            if isName then ElementsSum(es[j + 1..], false) else Plus(ParseInt(es[j]), ElementsSum(es[j + 1..], true))
  {
    assert es[j..][1..] == es[j + 1..];
  }

  /** A header that passes the decoding and bracket checks declares what its segments sum to. */
  lemma HeaderCheckedSum(data: Bytes)
    requires IsUtf8(data) && 1 <= Count(data, OPEN) == Count(data, CLOSE)
    ensures HeaderChecked(data) ==
            if SegmentsSum(Segments(data)).None? then HeaderCount(false, 0) else HeaderCount(true, SegmentsSum(Segments(data)).value)
  {
  }

  /**
   * The inner loop of `is_compressed_folder_header` over one segment's
   * elements, adding each size to `bytesAmount`; `ok` is false when a size
   * is not read by `int()`, where the source returns at once.
   */
  method SumElements(elements: seq<Bytes>, amount0: int) returns (ok: bool, bytesAmount: int)
    ensures ok <==> ElementsSum(elements, true).Some?
    ensures ok ==> bytesAmount == amount0 + ElementsSum(elements, true).value
  {
    bytesAmount := amount0;
    var elementStr := true;
    assert elements[0..] == elements;
    for j := 0 to |elements|
      invariant Plus(Some(bytesAmount), ElementsSum(elements[j..], elementStr)) == Plus(Some(amount0), ElementsSum(elements, true))
    {
      ElementsStep(elements, j, elementStr);
      if !elementStr {
        var v := ParseInt(elements[j]);
        if v.None? {
          return false, 0;
        }
        bytesAmount := bytesAmount + v.value;
      }
      elementStr := !elementStr;
    }
    ok := true;
  }

  /**
   * `is_compressed_folder_header`: after the decoding and bracket checks, a
   * loop over the segments and, inside it, a loop over each segment's
   * elements that toggles between a name and a size and sums the sizes.
   */
  method IsCompressedFolderHeader(data: Bytes) returns (check: bool, bytesAmount: int)
    ensures HeaderCount(check, bytesAmount) == HeaderChecked(data)
  {
    if !IsUtf8(data) {
      return false, 0;
    }
    var header := data;
    var openLst := Count(header, OPEN);
    var closeLst := Count(header, CLOSE);
    if openLst < 1 || openLst != closeLst {
      return false, 0;
    }
    HeaderCheckedSum(data);
    bytesAmount := 0;
    var lstToCheck := Split(Remove(header, CLOSE), [OPEN]);
    ghost var all := lstToCheck[1..];
    assert all == Segments(data);
    for k := 1 to |lstToCheck|
      invariant SegmentsSum(all) == Plus(Some(bytesAmount), SegmentsSum(lstToCheck[k..]))
    {
      ghost var amount0 := bytesAmount;
      var ok;
      ok, bytesAmount := SumElements(Split(lstToCheck[k], [COMMA]), bytesAmount);
      SegmentsAdvance(all, lstToCheck, k, amount0, ok, bytesAmount);
      if !ok {
        return false, 0;
      }
    }
    check := true;
  }

  // ---------------------------------------------------------------------------
  // is_compressed_folder
  // ---------------------------------------------------------------------------

  /** The first CRLF line of `data`: everything when there is no CRLF. */
  function FirstLine(data: Bytes): Bytes
  {
    var i := Find(data, CRLF);
    if i < 0 then data else data[..i]
  }

  /** Everything after the first CRLF of `data`: nothing when there is no CRLF. */
  function AfterFirstLine(data: Bytes): Bytes
  {
    var i := Find(data, CRLF);
    if i < 0 then [] else data[i + 2..]
  }

  /** What `is_compressed_folder` returns for `data`. */
  function FolderVerdict(data: Bytes): Bytes
  {
    var lines := Split(data, CRLF);
    var h := HeaderChecked(lines[0]);
    if !h.ok then HEADER_PROBLEM
    else if h.amount != |Join(lines[1..], CRLF)| then NOT_FOLDER
    else []
  }

  /** The first piece of the CRLF split is the first line; the other pieces joined back are the rest. */
  lemma LinesOf(data: Bytes)
    ensures Split(data, CRLF)[0] == FirstLine(data)
    ensures Join(Split(data, CRLF)[1..], CRLF) == AfterFirstLine(data)
  {
    var i := Find(data, CRLF);
    if i >= 0 {
      var rest := Split(data[i + 2..], CRLF);
      assert Split(data, CRLF) == [data[..i]] + rest;
      assert Split(data, CRLF)[1..] == rest;
      JoinSplit(data[i + 2..], CRLF);
    } else {
      assert Split(data, CRLF) == [data];
    }
  }

  /**
   * `is_compressed_folder` accepts exactly the buffers whose first line is a
   * well-formed header declaring as many bytes as follow the first CRLF.
   */
  lemma FolderVerdictMeaning(data: Bytes)
    ensures FolderVerdict(data) == [] <==>
              HeaderChecked(FirstLine(data)).ok && HeaderChecked(FirstLine(data)).amount == |AfterFirstLine(data)|
    ensures FolderVerdict(data) != [] ==> FolderVerdict(data) in {HEADER_PROBLEM, NOT_FOLDER}
  {
    LinesOf(data);
  }

  // ---------------------------------------------------------------------------
  // Helpers on removal, counting and splitting
  // ---------------------------------------------------------------------------

  lemma {:induction false} RemoveAppend(a: Bytes, b: Bytes, c: byte)
    ensures Remove(a + b, c) == Remove(a, c) + Remove(b, c)
    decreases |a|
  {
    if a == [] {
      assert a + b == b;
    } else {
      assert (a + b)[1..] == a[1..] + b;
      RemoveAppend(a[1..], b, c);
    }
  }

  lemma {:induction false} RemoveFree(a: Bytes, c: byte)
    requires c !in a
    ensures Remove(a, c) == a
    decreases |a|
  {
    if a != [] {
      RemoveFree(a[1..], c);
    }
  }

  lemma {:induction false} RemoveKeepsOut(a: Bytes, c: byte, x: byte)
    requires x !in a
    ensures x !in Remove(a, c)
    decreases |a|
  {
    if a != [] {
      RemoveKeepsOut(a[1..], c, x);
    }
  }

  lemma {:induction false} CountAppend(a: Bytes, b: Bytes, c: byte)
    ensures Count(a + b, c) == Count(a, c) + Count(b, c)
    decreases |a|
  {
    if a == [] {
      assert a + b == b;
    } else {
      assert (a + b)[1..] == a[1..] + b;
      CountAppend(a[1..], b, c);
    }
  }

  lemma {:induction false} CountFree(a: Bytes, c: byte)
    requires c !in a
    ensures Count(a, c) == 0
    decreases |a|
  {
    if a != [] {
      CountFree(a[1..], c);
    }
  }

  lemma {:induction false} CountPositive(a: Bytes, c: byte)
    requires Count(a, c) >= 1
    ensures c in a
    decreases |a|
  {
    if a[0] != c {
      CountPositive(a[1..], c);
    }
  }

  /** A prefix free of the separator sticks to the first piece. */
  lemma SplitPrefix(x: Bytes, s: Bytes, c: byte)
    requires c !in x
    ensures Split(x + s, [c]) == [x + Split(s, [c])[0]] + Split(s, [c])[1..]
  {
    FindByte(s, c);
    if c !in s {
      SplitNoByte(s, c);
      SplitNoByte(x + s, c);
    } else {
      var k := Find(s, [c]);
      SplitPrefixAt(x, s, c, s[..k], s[k + 1..]);
    }
  }

  /** The same, once the first separator of `s` is found between `a` and `b`. */
  lemma SplitPrefixAt(x: Bytes, s: Bytes, c: byte, a: Bytes, b: Bytes)
    requires c !in x && Find(s, [c]) >= 0 && a == s[..Find(s, [c])] && b == s[Find(s, [c]) + 1..]
    ensures Split(x + s, [c]) == [x + Split(s, [c])[0]] + Split(s, [c])[1..]
  {
    var rest := Split(b, [c]);
    assert Split(s, [c]) == [a] + rest;
    assert c !in x + a by {
      SplitPartsFree(s, c);
      assert Split(s, [c])[0] == a;
    }
    assert x + s == (x + a) + [c] + b by {
      SplitAtFind(s, [c]);
    }
    SplitFirstByte(x + a, c, b);
    assert ([a] + rest)[1..] == rest;
  }

  /** No CRLF when the search for one fails. */
  lemma NotFoundNoCrlf(s: Bytes)
    requires Find(s, CRLF) < 0
    ensures NoCrlf(s)
  {
    forall i | 0 <= i < |s| - 1 ensures !(s[i] == CR && s[i + 1] == LF) {
      assert !OccursAt(s, CRLF, i);
      assert s[i..i + 2] == [s[i], s[i + 1]];
    }
  }

  /** What comes before the first CRLF holds none. */
  lemma BeforeFindNoCrlf(data: Bytes)
    requires Find(data, CRLF) >= 0
    ensures NoCrlf(data[..Find(data, CRLF)])
  {
    var i := Find(data, CRLF);
    var h := data[..i];
    forall k | 0 <= k < |h| - 1 ensures !(h[k] == CR && h[k + 1] == LF) {
      assert !OccursAt(data, CRLF, k);
      assert data[k..k + 2] == [h[k], h[k + 1]];
    }
  }

  /** The first line holds no CRLF. */
  lemma FirstLineNoCrlf(data: Bytes)
    ensures NoCrlf(FirstLine(data))
  {
    if Find(data, CRLF) < 0 {
      NotFoundNoCrlf(data);
    } else {
      BeforeFindNoCrlf(data);
    }
  }

  /** The buffer is its first line, then CRLF and the rest when there is a CRLF. */
  lemma FirstLineThenRest(data: Bytes)
    ensures data == FirstLine(data) + (if Find(data, CRLF) < 0 then [] else CRLF + AfterFirstLine(data))
  {
    var i := Find(data, CRLF);
    if i < 0 {
      assert data == data + [];
    } else {
      var h, t := data[..i], data[i + 2..];
      assert FirstLine(data) == h && AfterFirstLine(data) == t;
      assert data == h + CRLF + t by {
        SplitAtFind(data, CRLF);
      }
      Regroup(h, CRLF, t);
    }
  }

  /** The lines of `h + CRLF + p`, for a line `h`. */
  lemma LinesAfter(h: Bytes, p: Bytes)
    requires NoCrlf(h)
    ensures FirstLine(h + CRLF + p) == h && AfterFirstLine(h + CRLF + p) == p
  {
    SplitCrlf(h, p);
    LinesOf(h + CRLF + p);
    JoinSplit(p, CRLF);
  }

  /** The same, with the rest written as two parts. */
  lemma LinesAfterData(r: Bytes, h: Bytes, d: Bytes, p: Bytes)
    requires NoCrlf(h) && r == h + CRLF + d + p
    ensures FirstLine(r) == h && AfterFirstLine(r) == d + p
  {
    assert r == h + CRLF + (d + p);
    LinesAfter(h, d + p);
  }

  /** Every byte of a character after its first is at least 0x80. */
  lemma ContinuationByte(ch: Bytes, j: nat)
    requires ValidChar(ch) && 1 <= j < |ch|
    ensures ch[j] >= 0x80
  {
  }

  /** A byte below 0x80 never falls inside a character: both sides of it are valid on their own. */
  lemma {:induction false} Utf8SplitAscii(x: Bytes, c: byte, y: Bytes)
    requires c < 0x80 && IsUtf8(x + [c] + y)
    ensures IsUtf8(x) && IsUtf8(y)
    decreases |x|
  {
    var s := x + [c] + y;
    if x == [] {
      assert s[1..] == y;
    } else {
      var k := Width(s[0]);
      if k > |x| {
        ContinuationByte(s[..k], |x|);
        assert false;
      }
      assert s[..k] == x[..k];
      assert s[k..] == x[k..] + [c] + y;
      Utf8SplitAscii(x[k..], c, y);
      assert x == x[..k] + x[k..];
    }
  }

  /** A line with a byte not CR in the middle, and lines on either side, holds no CRLF. */
  lemma NoCrlfAround(a: Bytes, m: Bytes, b: Bytes)
    requires NoCrlf(a) && NoCrlf(b) && m != [] && CR !in m
    requires a == [] || a[|a| - 1] != CR
    ensures NoCrlf(a + m + b)
  {
    assert NoCrlf(m);
    NoCrlfAppend(a, m);
    assert (a + m)[|a + m| - 1] == m[|m| - 1];
    NoCrlfAppend(a + m, b);
  }

  // ---------------------------------------------------------------------------
  // add_data_to_folder_data
  // ---------------------------------------------------------------------------

  /** What is inserted after the first `[`: the name, a comma, the size and a comma. */
  function Entry(name: Bytes, size: nat): Bytes
  {
    name + [COMMA] + Decimal(size) + [COMMA]
  }

  /** The first step: `ins` spliced in after the first `[` (the `[`-pieces after the first joined back). */
  function InsertAfterOpen(existFolderData: Bytes, ins: Bytes): Bytes
  {
    var existDataLst := Split(existFolderData, [OPEN]);
    existDataLst[0] + [OPEN] + ins + Join(existDataLst[1..], [OPEN])
  }

  /** The second step: `data` placed right after the first CRLF (the other lines joined back). */
  function InsertAfterFirstLine(s: Bytes, data: Bytes): Bytes
  {
    var lines := Split(s, CRLF);
    lines[0] + CRLF + data + Join(lines[1..], CRLF)
  }

  /** `add_data_to_folder_data`: the name and size spliced into the header, then the data after the first line. */
  function AddDataToFolderData(existFolderData: Bytes, fileToAddData: Bytes, fileNameToAdd: Bytes): Bytes
  {
    InsertAfterFirstLine(InsertAfterOpen(existFolderData, Entry(fileNameToAdd, |fileToAddData|)), fileToAddData)
  }

  /** The data lands right after the first line, whatever the buffer. */
  lemma InsertAfterFirstLineMeaning(s: Bytes, data: Bytes)
    ensures InsertAfterFirstLine(s, data) == FirstLine(s) + CRLF + data + AfterFirstLine(s)
  {
    LinesOf(s);
  }

  /** Splicing `[` and the insert in at the first `[`, which lies in `h`. */
  lemma SpliceAt(h: Bytes, tail: Bytes, ins: Bytes, i: nat)
    requires i < |h| && h[i] == OPEN && OPEN !in h[..i]
    ensures var lst := Split(h + tail, [OPEN]);
            lst[0] + [OPEN] + ins + Join(lst[1..], [OPEN]) == h[..i + 1] + ins + h[i + 1..] + tail
  {
    var a, b := h[..i], h[i + 1..] + tail;
    assert h + tail == a + [OPEN] + b;
    SplitFirstByte(a, OPEN, b);
    JoinSplit(b, [OPEN]);
    assert a + [OPEN] == h[..i + 1];
  }

  /** The splice lands inside the first line, right after its first `[`. */
  lemma SpliceInFirstLine(exist: Bytes, ins: Bytes)
    requires OPEN in FirstLine(exist)
    ensures var h := FirstLine(exist);
            var i := FirstIndex(h, OPEN);
            InsertAfterOpen(exist, ins) ==
              h[..i + 1] + ins + h[i + 1..] + (if Find(exist, CRLF) < 0 then [] else CRLF + AfterFirstLine(exist))
  {
    var h := FirstLine(exist);
    var i := FirstIndex(h, OPEN);
    FirstLineThenRest(exist);
    var tail := if Find(exist, CRLF) < 0 then [] else CRLF + AfterFirstLine(exist);
    assert OPEN !in h[..i];
    SpliceAt(h, tail, ins, i);
  }

  /** The new first line holds no CRLF. */
  lemma SplicedLine(h: Bytes, i: nat, name: Bytes, size: nat)
    requires i < |h| && h[i] == OPEN && NoCrlf(h) && CR !in name
    ensures NoCrlf(h[..i + 1] + Entry(name, size) + h[i + 1..])
  {
    var ins := Entry(name, size);
    DecimalDigits(size);
    assert CR !in Decimal(size);
    assert CR !in ins;
    assert NoCrlf(h[..i + 1]) && NoCrlf(h[i + 1..]);
    NoCrlfAround(h[..i + 1], ins, h[i + 1..]);
  }

  /** The lines of a line followed by nothing, or by CRLF and the rest `p`. */
  lemma LinesOfLine(h: Bytes, p: Bytes, more: bool)
    requires NoCrlf(h)
    ensures var s := h + (if more then CRLF + p else []);
            FirstLine(s) == h && AfterFirstLine(s) == (if more then p else [])
  {
    if more {
      LinesAfter(h, p);
      assert h + (CRLF + p) == h + CRLF + p;
    } else {
      assert h + [] == h;
      NoCrlfNoOccurrence(h);
    }
  }

  /**
   * When the first line holds a `[` and the name holds no CR, adding a file
   * writes the insert after that `[` and the data right after the first
   * line; the rest of the archive follows unchanged.
   */
  lemma AddDataShape(exist: Bytes, newData: Bytes, name: Bytes)
    requires OPEN in FirstLine(exist) && CR !in name
    ensures var h := FirstLine(exist);
            var i := FirstIndex(h, OPEN);
            var h' := h[..i + 1] + Entry(name, |newData|) + h[i + 1..];
            NoCrlf(h') &&
            AddDataToFolderData(exist, newData, name) == h' + CRLF + newData + AfterFirstLine(exist)
    ensures var h := FirstLine(exist);
            var i := FirstIndex(h, OPEN);
            var r := AddDataToFolderData(exist, newData, name);
            FirstLine(r) == h[..i + 1] + Entry(name, |newData|) + h[i + 1..] && AfterFirstLine(r) == newData + AfterFirstLine(exist)
  {
    var h := FirstLine(exist);
    var i := FirstIndex(h, OPEN);
    var ins := Entry(name, |newData|);
    var h' := h[..i + 1] + ins + h[i + 1..];
    var spliced := InsertAfterOpen(exist, ins);
    var more := Find(exist, CRLF) >= 0;
    var p := AfterFirstLine(exist);
    assert spliced == h' + (if more then CRLF + p else []) by {
      SpliceInFirstLine(exist, ins);
    }
    assert NoCrlf(h') by {
      FirstLineNoCrlf(exist);
      SplicedLine(h, i, name, |newData|);
    }
    assert FirstLine(spliced) == h' && AfterFirstLine(spliced) == (if more then p else []) by {
      LinesOfLine(h', p, more);
    }
    var r := AddDataToFolderData(exist, newData, name);
    assert r == h' + CRLF + newData + p by {
      InsertAfterFirstLineMeaning(spliced, newData);
    }
    LinesAfterData(r, h', newData, p);
  }

  /** The insert is valid UTF-8 for a name that is, and holds no bracket, comma or CR of its own beyond its commas. */
  lemma EntryFacts(name: Bytes, size: nat)
    requires FolderRoundTrip.Plain(name)
    ensures var ins := Entry(name, size);
            IsUtf8(ins) && OPEN !in ins && CLOSE !in ins && CR !in ins && ins != []
  {
    var d := Decimal(size);
    var tail := [COMMA] + d + [COMMA];
    assert Entry(name, size) == name + tail;
    assert OPEN !in d && CLOSE !in d && CR !in d by {
      DecimalDigits(size);
    }
    assert IsUtf8(tail) by {
      DecimalNoComma(size);
      AsciiIsUtf8(tail);
    }
    Utf8Append(name, tail);
  }

  /** Valid UTF-8 on both sides of the first `[` stays valid with the insert after it. */
  lemma SplicedUtf8(a: Bytes, b: Bytes, ins: Bytes)
    requires IsUtf8(a + [OPEN] + b) && IsUtf8(ins)
    ensures IsUtf8(a + [OPEN] + ins + b)
  {
    Utf8SplitAscii(a, OPEN, b);
    AsciiIsUtf8([OPEN]);
    Utf8Append(a, [OPEN]);
    Utf8Append(a + [OPEN], ins);
    Utf8Append(a + [OPEN] + ins, b);
  }

  /** The insert adds its own occurrences of a byte, and no others. */
  lemma SplicedCount(a: Bytes, b: Bytes, ins: Bytes, c: byte)
    ensures Count(a + [OPEN] + ins + b, c) == Count(a + [OPEN] + b, c) + Count(ins, c)
  {
    CountAppend(a + [OPEN] + ins, b, c);
    CountAppend(a + [OPEN], ins, c);
    CountAppend(a + [OPEN], b, c);
  }

  /** The segments after the splice: the insert joins the first segment, the others are unchanged. */
  lemma SplicedSegments(a: Bytes, b: Bytes, ins: Bytes)
    requires OPEN !in a && OPEN !in ins && CLOSE !in ins
    ensures |Segments(a + [OPEN] + b)| >= 1
    ensures var segs := Segments(a + [OPEN] + b);
            Segments(a + [OPEN] + ins + b) == [ins + segs[0]] + segs[1..]
  {
    var x, r := Remove(a, CLOSE), Remove(b, CLOSE);
    RemoveKeepsOut(a, CLOSE, OPEN);
    assert Remove([OPEN], CLOSE) == [OPEN];
    RemoveFree(ins, CLOSE);
    RemoveAppend(a + [OPEN], b, CLOSE);
    RemoveAppend(a, [OPEN], CLOSE);
    RemoveAppend(a + [OPEN] + ins, b, CLOSE);
    RemoveAppend(a + [OPEN], ins, CLOSE);
    assert Remove(a + [OPEN] + b, CLOSE) == x + [OPEN] + r;
    assert Remove(a + [OPEN] + ins + b, CLOSE) == x + [OPEN] + (ins + r);
    SplitFirstByte(x, OPEN, r);
    SplitFirstByte(x, OPEN, ins + r);
    SplitPrefix(ins, r, OPEN);
  }

  /** The first segment after the splice sums to the new size plus what it summed to before. */
  lemma EntrySum(name: Bytes, size: nat, seg: Bytes)
    requires COMMA !in name
    ensures ElementsSum(Split(Entry(name, size) + seg, [COMMA]), true) ==
            Plus(Some(size), ElementsSum(Split(seg, [COMMA]), true))
  {
    var d := Decimal(size);
    DecimalNoComma(size);
    ParseDecimal(size);
    assert Entry(name, size) + seg == name + [COMMA] + (d + [COMMA] + seg);
    SplitFirstByte(name, COMMA, d + [COMMA] + seg);
    SplitFirstByte(d, COMMA, seg);
    var e := Split(seg, [COMMA]);
    assert Split(Entry(name, size) + seg, [COMMA]) == [name] + ([d] + e);
    assert ([name] + ([d] + e))[1..] == [d] + e;
    assert ([d] + e)[1..] == e;
  }

  /**
   * Splicing a plain name and a size in after the first `[` of a
   * well-formed header keeps it well formed and adds the size to what it
   * declares.
   */
  lemma SplicedHeader(h: Bytes, name: Bytes, size: nat)
    requires HeaderChecked(h).ok && FolderRoundTrip.Plain(name)
    ensures OPEN in h
    ensures var i := FirstIndex(h, OPEN);
            HeaderChecked(h[..i + 1] + Entry(name, size) + h[i + 1..]) == HeaderCount(true, HeaderChecked(h).amount + size)
  {
    CountPositive(h, OPEN);
    var i := FirstIndex(h, OPEN);
    var a, b := h[..i], h[i + 1..];
    assert h == a + [OPEN] + b;
    assert h[..i + 1] + Entry(name, size) + h[i + 1..] == a + [OPEN] + Entry(name, size) + b;
    SplicedHeaderAt(a, b, name, size);
  }

  /** The same, with the header cut at its first `[`. */
  lemma SplicedHeaderAt(a: Bytes, b: Bytes, name: Bytes, size: nat)
    requires OPEN !in a && HeaderChecked(a + [OPEN] + b).ok && FolderRoundTrip.Plain(name)
    ensures HeaderChecked(a + [OPEN] + Entry(name, size) + b) == HeaderCount(true, HeaderChecked(a + [OPEN] + b).amount + size)
  {
    var h, ins := a + [OPEN] + b, Entry(name, size);
    var h' := a + [OPEN] + ins + b;
    EntryFacts(name, size);
    assert IsUtf8(h') by {
      SplicedUtf8(a, b, ins);
    }
    assert Count(h', OPEN) == Count(h, OPEN) && Count(h', CLOSE) == Count(h, CLOSE) by {
      SplicedCount(a, b, ins, OPEN);
      SplicedCount(a, b, ins, CLOSE);
      CountFree(ins, OPEN);
      CountFree(ins, CLOSE);
    }
    HeaderCheckedSum(h);
    HeaderCheckedSum(h');
    SplicedSum(a, b, name, size);
  }

  /** The segments' sum after the splice is the size plus the sum before. */
  lemma SplicedSum(a: Bytes, b: Bytes, name: Bytes, size: nat)
    requires OPEN !in a && FolderRoundTrip.Plain(name)
    ensures SegmentsSum(Segments(a + [OPEN] + Entry(name, size) + b)) == Plus(Some(size), SegmentsSum(Segments(a + [OPEN] + b)))
  {
    var ins := Entry(name, size);
    EntryFacts(name, size);
    var segs := Segments(a + [OPEN] + b);
    SplicedSegments(a, b, ins);
    var e0 := ElementsSum(Split(segs[0], [COMMA]), true);
    var later := SegmentsSum(segs[1..]);
    assert SegmentsSum(segs) == Plus(e0, later) by {
      SegmentsCons(segs[0], segs[1..]);
      assert segs == [segs[0]] + segs[1..];
    }
    assert SegmentsSum([ins + segs[0]] + segs[1..]) == Plus(Plus(Some(size), e0), later) by {
      SegmentsCons(ins + segs[0], segs[1..]);
      EntrySum(name, size, segs[0]);
    }
  }

  /** The outer sum of a first segment and the others. */
  lemma SegmentsCons(first: Bytes, rest: seq<Bytes>)
    ensures SegmentsSum([first] + rest) == Plus(ElementsSum(Split(first, [COMMA]), true), SegmentsSum(rest))
  {
    assert ([first] + rest)[1..] == rest;
  }

  /**
   * Adding a file with a plain name to a valid folder archive gives a valid
   * folder archive, whose header declares the new data as well.
   */
  lemma AddDataKeepsFolder(exist: Bytes, newData: Bytes, name: Bytes)
    requires FolderVerdict(exist) == [] && FolderRoundTrip.Plain(name)
    ensures var r := AddDataToFolderData(exist, newData, name);
            FolderVerdict(r) == [] &&
            HeaderChecked(FirstLine(r)).amount == HeaderChecked(FirstLine(exist)).amount + |newData|
  {
    FolderVerdictMeaning(exist);
    var r := AddDataToFolderData(exist, newData, name);
    AddDataLines(exist, newData, name);
    FolderFromLines(r, FirstLine(r), AfterFirstLine(r));
  }

  /** After adding a file, the first line declares the new data as well, and the data follows the first line. */
  lemma AddDataLines(exist: Bytes, newData: Bytes, name: Bytes)
    requires HeaderChecked(FirstLine(exist)).ok && FolderRoundTrip.Plain(name)
    ensures var r := AddDataToFolderData(exist, newData, name);
            HeaderChecked(FirstLine(r)) == HeaderCount(true, HeaderChecked(FirstLine(exist)).amount + |newData|) &&
            AfterFirstLine(r) == newData + AfterFirstLine(exist)
  {
    var h := FirstLine(exist);
    assert OPEN in h by {
      SplicedHeader(h, name, |newData|);
    }
    var i := FirstIndex(h, OPEN);
    var h' := h[..i + 1] + Entry(name, |newData|) + h[i + 1..];
    assert HeaderChecked(h') == HeaderCount(true, HeaderChecked(h).amount + |newData|) by {
      SplicedHeader(h, name, |newData|);
    }
    var r := AddDataToFolderData(exist, newData, name);
    assert FirstLine(r) == h' && AfterFirstLine(r) == newData + AfterFirstLine(exist) by {
      assert CR !in name;
      AddDataShape(exist, newData, name);
    }
  }

  /** A buffer whose first line is a header declaring exactly the bytes after it passes `is_compressed_folder`. */
  lemma FolderFromLines(data: Bytes, h: Bytes, p: Bytes)
    requires FirstLine(data) == h && AfterFirstLine(data) == p && HeaderChecked(h) == HeaderCount(true, |p|)
    ensures FolderVerdict(data) == []
  {
    FolderVerdictMeaning(data);
  }

  // ---------------------------------------------------------------------------
  // check_args
  // ---------------------------------------------------------------------------

  const NOT_ENOUGH: Bytes := Ascii("not enough files")
  const FOLDER_TEXT: Bytes := Ascii("folder must be text file")
  const EMPTY_NAME: Bytes := Ascii("there is empty name")
  const MUST_BE_FILE: Bytes := Ascii(" must be file")
  const WRONG_METHOD: Bytes := Ascii(" wrong compress method")
  const WRONG_REPEAT_SIZE: Bytes := Ascii(" wrong repeat size")

  /**
   * `not folder_name.find(".")`: `find` returns 0 exactly when the name
   * starts with a dot, and only then is its negation true.
   */
  predicate StartsWithDot(name: Bytes)
  {
    name != [] && name[0] == DOT
  }

  /** The repeat size after `RLE` is empty, not read by `int()`, or below 1. */
  predicate BadRepeat(compressMethod: Bytes)
  {
    var rest := Drop(compressMethod, 3);
    rest == [] || ParseInt(rest).None? || ParseInt(rest).value < 1
  }

  /**
   * The checks on one pair: a non-empty name, naming a file (`fs` holds the
   * files of the file system by path), a method whose first three bytes are
   * `RLE` or `HUF`, and for RLE a repeat size of at least 1.
   */
  function PairError(fileName: Bytes, compressMethod: Bytes, fs: map<Bytes, Bytes>): Option<Bytes>
  {
    if fileName == [] then Some(EMPTY_NAME)
    else if fileName !in fs then Some(fileName + MUST_BE_FILE)
    else if Tag(compressMethod) != Ascii("RLE") && Tag(compressMethod) != Ascii("HUF") then Some(fileName + WRONG_METHOD)
    else if Tag(compressMethod) == Ascii("RLE") && BadRepeat(compressMethod) then Some(fileName + WRONG_REPEAT_SIZE)
    else None
  }

  /**
   * The first problem among the pairs from argument `i` on (the argument
   * count is odd by then, so a pair starts at every odd `i` below it).
   */
  function PairsError(args: seq<Bytes>, fs: map<Bytes, Bytes>, i: nat): Option<Bytes>
    decreases |args| - i
  {
    if i + 1 >= |args| then None
    else if PairError(args[i], args[i + 1], fs).Some? then PairError(args[i], args[i + 1], fs)
    else PairsError(args, fs, i + 2)
  }

  /** What `check_args` returns: `None` when the arguments are acceptable, the first problem otherwise. */
  function ArgsError(args: seq<Bytes>, fs: map<Bytes, Bytes>): Option<Bytes>
  {
    if |args| < 3 || |args| % 2 == 0 then Some(NOT_ENOUGH)
    else if StartsWithDot(args[0]) then Some(FOLDER_TEXT)
    else PairsError(args, fs, 1)
  }

  /** The body of the loop of `check_args`: the checks on one name and its method. */
  method CheckPair(fileName: Bytes, compressMethod: Bytes, fs: map<Bytes, Bytes>) returns (r: Option<Bytes>)
    ensures r == PairError(fileName, compressMethod, fs)
  {
    if fileName == [] {
      return Some(EMPTY_NAME);
    }
    if fileName !in fs {
      return Some(fileName + MUST_BE_FILE);
    }
    var tag := Slice(compressMethod, 0, 3);
    if tag != Ascii("RLE") && tag != Ascii("HUF") {
      return Some(fileName + WRONG_METHOD);
    }
    if tag == Ascii("RLE") {
      var rest := Drop(compressMethod, 3);
      if rest == [] {
        return Some(fileName + WRONG_REPEAT_SIZE);
      }
      var v := ParseInt(rest);
      if v.None? {
        return Some(fileName + WRONG_REPEAT_SIZE);
      }
      if v.value < 1 {
        return Some(fileName + WRONG_REPEAT_SIZE);
      }
    }
    return None;
  }

  /** One turn of the loop of `check_args`: this pair's problem, or else the later pairs'. */
  lemma PairsErrorStep(args: seq<Bytes>, fs: map<Bytes, Bytes>, i: nat, e: Option<Bytes>)
    requires i + 1 < |args| && e == PairError(args[i], args[i + 1], fs)
    ensures PairsError(args, fs, i) == if e.Some? then e else PairsError(args, fs, i + 2)
  {
  }

  /** `check_args`: the count and folder checks, then a loop over the pairs. */
  method CheckArgs(args: seq<Bytes>, fs: map<Bytes, Bytes>) returns (r: Option<Bytes>)
    ensures r == ArgsError(args, fs)
  {
    if |args| < 3 || |args| % 2 == 0 {
      return Some(NOT_ENOUGH);
    }
    var folderName := args[0];
    if folderName != [] && folderName[0] == DOT {
      return Some(FOLDER_TEXT);
    }
    ghost var n := |args| / 2;
    assert |args| == 2 * n + 1;
    var i := 1;
    ghost var k := 0;
    while i < |args|
      invariant i == 2 * k + 1 && k <= n
      invariant PairsError(args, fs, 1) == PairsError(args, fs, i)
      decreases |args| - i
    {
      var e := CheckPair(args[i], args[i + 1], fs);
      PairsErrorStep(args, fs, i, e);
      if e.Some? {
        return e;
      }
      i, k := i + 2, k + 1;
    }
    return None;
  }

  /** No problem from argument `i` on: none in this pair, none after it. */
  lemma PairsErrorNext(args: seq<Bytes>, fs: map<Bytes, Bytes>, i: nat)
    requires i + 1 < |args| && PairsError(args, fs, i) == None
    ensures PairError(args[i], args[i + 1], fs) == None && PairsError(args, fs, i + 2) == None
  {
  }

  /** The pair starting at argument `i` is complete and passes its checks. */
  predicate PairOk(args: seq<Bytes>, fs: map<Bytes, Bytes>, i: nat)
  {
    i + 1 < |args| && PairError(args[i], args[i + 1], fs) == None
  }

  /** Every pair from argument `i` on passes, the argument count and `i` both odd. */
  ghost predicate PairsOk(args: seq<Bytes>, fs: map<Bytes, Bytes>, i: nat)
  {
    && |args| % 2 == 1 && i % 2 == 1
    && forall j :: i <= j < |args| && j % 2 == 1 ==> PairOk(args, fs, j)
  }

  /** No problem from argument `i` on exactly when every pair from there on passes. */
  lemma PairsErrorNone(args: seq<Bytes>, fs: map<Bytes, Bytes>, i: nat)
    requires i % 2 == 1 && |args| % 2 == 1
    ensures PairsError(args, fs, i) == None <==>
              forall j :: i <= j < |args| && j % 2 == 1 ==> PairOk(args, fs, j)
  {
    if PairsError(args, fs, i) == None {
      PairsNoneAllOk(args, fs, i);
    }
    if forall j :: i <= j < |args| && j % 2 == 1 ==> PairOk(args, fs, j) {
      AllOkPairsNone(args, fs, i);
    }
  }

  /** No problem from argument `i` on: every pair from there on passes. */
  lemma {:induction false} PairsNoneAllOk(args: seq<Bytes>, fs: map<Bytes, Bytes>, i: nat)
    requires i % 2 == 1 && |args| % 2 == 1 && PairsError(args, fs, i) == None
    ensures forall j :: i <= j < |args| && j % 2 == 1 ==> PairOk(args, fs, j)
    decreases |args| - i
  {
    if i < |args| {
      PairsErrorNext(args, fs, i);
      PairsNoneAllOk(args, fs, i + 2);
      forall j | i <= j < |args| && j % 2 == 1 ensures PairOk(args, fs, j) {
        if j != i { assert i + 2 <= j; }
      }
    }
  }

  /** Every pair from argument `i` on passes: no problem from there on. */
  lemma {:induction false} AllOkPairsNone(args: seq<Bytes>, fs: map<Bytes, Bytes>, i: nat)
    requires i % 2 == 1 && |args| % 2 == 1
    requires forall j :: i <= j < |args| && j % 2 == 1 ==> PairOk(args, fs, j)
    ensures PairsError(args, fs, i) == None
    decreases |args| - i
  {
    if i < |args| {
      assert PairOk(args, fs, i);
      AllOkPairsNone(args, fs, i + 2);
    }
  }

  /**
   * `check_args` accepts exactly an odd number of at least three arguments
   * whose first does not start with a dot and whose pairs all pass.
   */
  lemma ArgsAccepted(args: seq<Bytes>, fs: map<Bytes, Bytes>)
    ensures ArgsError(args, fs) == None <==>
              && |args| >= 3 && |args| % 2 == 1 && !StartsWithDot(args[0])
              && forall j :: 1 <= j < |args| && j % 2 == 1 ==> PairOk(args, fs, j)
  {
    if |args| >= 3 && |args| % 2 == 1 {
      PairsErrorNone(args, fs, 1);
    }
  }

  // ---------------------------------------------------------------------------
  // compress_files_to_one_file
  // ---------------------------------------------------------------------------

  const BACKSLASH: byte := 92
  const TXT: Bytes := Ascii(".txt")
  const PATH_MISSING: Bytes := Ascii("the file path doesnt exists")

  /** `path.replace("\\", "/")`: every backslash turned into a slash. */
  function ArgPath(arg: Bytes): (r: Bytes)
    ensures |r| == |arg| && BACKSLASH !in r
    ensures forall i :: 0 <= i < |arg| && arg[i] == BACKSLASH ==> r[i] == SLASH
    ensures forall i :: 0 <= i < |arg| && arg[i] != BACKSLASH ==> r[i] == arg[i]
  {
    seq(|arg|, i requires 0 <= i < |arg| => if arg[i] == BACKSLASH then SLASH else arg[i])
  }

  /** `folder_name[-4:] == ".txt"`. */
  predicate EndsWithTxt(name: Bytes)
  {
    |name| >= 4 && name[|name| - 4..] == TXT
  }

  /** The path of the archive: the folder name, with `.txt` appended unless it ends so already. */
  function OutputName(folderName: Bytes): Bytes
  {
    if EndsWithTxt(folderName) then folderName else folderName + TXT
  }

  /** `".".join(name.split(".")[:-1])`. */
  function StemOf(name: Bytes): Bytes
  {
    var parts := Split(name, [DOT]);
    Join(parts[..|parts| - 1], [DOT])
  }

  /** Joining one more part puts the separator and the part at the end. */
  lemma {:induction false} JoinSnoc(parts: seq<Bytes>, t: Bytes, sep: Bytes)
    requires |parts| >= 1
    ensures Join(parts + [t], sep) == Join(parts, sep) + sep + t
    decreases |parts|
  {
    if |parts| == 1 {
      assert parts + [t] == [parts[0]] + [t];
      JoinCons(parts[0], [t], sep);
    } else {
      assert parts + [t] == [parts[0]] + (parts[1..] + [t]);
      JoinCons(parts[0], parts[1..] + [t], sep);
      JoinSnoc(parts[1..], t, sep);
      JoinCons(parts[0], parts[1..], sep);
      assert parts == [parts[0]] + parts[1..];
    }
  }

  /** A last piece free of the separator is split off as the last piece. */
  lemma SplitSnoc(x: Bytes, c: byte, t: Bytes)
    requires c !in t
    ensures Split(x + [c] + t, [c]) == Split(x, [c]) + [t]
  {
    var parts := Split(x, [c]);
    JoinSplit(x, [c]);
    SplitPartsFree(x, c);
    JoinSnoc(parts, t, [c]);
    SplitJoin(parts + [t], c);
  }

  /** The archive's path ends with `.txt`, and its stem is the folder name without that ending. */
  lemma OutputStem(folderName: Bytes)
    ensures EndsWithTxt(OutputName(folderName))
    ensures StemOf(OutputName(folderName)) == if EndsWithTxt(folderName) then folderName[..|folderName| - 4] else folderName
  {
    var o := OutputName(folderName);
    var x := o[..|o| - 4];
    var t := Ascii("txt");
    assert o == x + [DOT] + t;
    SplitSnoc(x, DOT, t);
    var parts := Split(o, [DOT]);
    assert parts[..|parts| - 1] == Split(x, [DOT]);
    JoinSplit(x, [DOT]);
  }

  /** What `compress_files_to_one_file` ends with: the archive written, with its path and the summed efficiency; a message; or an exception. */
  datatype Archived = Written(path: Bytes, contents: Bytes, efficiency: int) | Refused(message: Bytes) | Raised

  /** One pair compressed: the base name, the artifact and its efficiency; or how the function ends there. */
  datatype Piece = Piece(name: Bytes, artifact: Bytes, efficiency: int) | Stop(end: Archived)

  /** `int(compress_method[3:])`, once `check_args` has accepted it. */
  function RepeatOf(compressMethod: Bytes): (rs: int)
    requires !BadRepeat(compressMethod)
    ensures rs >= 1 && ParseInt(Drop(compressMethod, 3)) == Some(rs)
  {
    ParseInt(Drop(compressMethod, 3)).value
  }

  /**
   * A file compressed by a `Compressor` made for method `m`: its base name,
   * the artifact and the efficiency; `compress_huf` raises on an empty file.
   */
  function Compressed(fileName: Bytes, m: Method, contents: Bytes, rs: int): Piece
    requires rs >= 1
  {
    var artifact := if m == RLE then RleArtifact(fileName, m, contents, rs) else HufArtifact(fileName, m, contents);
    if artifact.None? then Stop(Raised)
    else Piece(BaseName(fileName), artifact.value, |contents| - |artifact.value|)
  }

  /**
   * The loop body of `compress_files_to_one_file` on one accepted pair: the
   * constructor's checks (their message when they fail), then the
   * compression the method names.
   */
  function PieceOf(arg: Bytes, compressMethod: Bytes, fs: map<Bytes, Bytes>): Piece
    requires PairError(arg, compressMethod, fs) == None
  {
    var fileName := ArgPath(arg);
    match CheckInit(fileName, Tag(compressMethod), fileName in fs)
    case None => Stop(Refused(PATH_MISSING))
    case Some(m) => Compressed(fileName, m, fs[fileName], if m == RLE then RepeatOf(compressMethod) else 1)
  }

  /** The pairs compressed so far: names, artifacts and summed efficiency; or how the function ended. */
  datatype Gathered = Gathered(names: seq<Bytes>, arts: seq<Bytes>, efficiency: int) | Halted(end: Archived)

  /** Pairs gathered before `rest`. */
  function Then(g: Gathered, rest: Gathered): Gathered
    requires g.Gathered?
  {
    match rest
    case Halted(e) => Halted(e)
    case Gathered(ns, xs, e) => Gathered(g.names + ns, g.arts + xs, g.efficiency + e)
  }

  /** The `t`-th pair, at arguments `2t + 1` and `2t + 2`, compressed on its own. */
  function PieceAt(args: seq<Bytes>, fs: map<Bytes, Bytes>, t: nat): Piece
    requires PairsOk(args, fs, 1) && 2 * t + 2 < |args|
  {
    assert PairOk(args, fs, 2 * t + 1);
    PieceOf(args[2 * t + 1], args[2 * t + 2], fs)
  }

  /** Every pair compressed on its own, in order. */
  function Pieces(args: seq<Bytes>, fs: map<Bytes, Bytes>): (ps: seq<Piece>)
    requires PairsOk(args, fs, 1)
    ensures |args| == 2 * |ps| + 1
  {
    seq(|args| / 2, t requires 0 <= t < |args| / 2 => PieceAt(args, fs, t))
  }

  /**
   * `ps` holds the compressed pairs of `args`.  A piece is only looked at
   * where it is computed, so the quantifier waits for that.
   */
  ghost predicate PiecesOf(args: seq<Bytes>, fs: map<Bytes, Bytes>, ps: seq<Piece>)
  {
    && PairsOk(args, fs, 1) && |args| == 2 * |ps| + 1
    && forall t {:trigger PieceAt(args, fs, t)} :: 0 <= t < |ps| ==> ps[t] == PieceAt(args, fs, t)
  }

  lemma PiecesAre(args: seq<Bytes>, fs: map<Bytes, Bytes>)
    requires PairsOk(args, fs, 1)
    ensures PiecesOf(args, fs, Pieces(args, fs))
  {
  }

  /** The pieces compressed one after the other: the first that stops ends it. */
  function Collect(ps: seq<Piece>): (g: Gathered)
    ensures g.Gathered? ==> |g.names| == |g.arts|
  {
    if ps == [] then Gathered([], [], 0)
    else
      match ps[0]
      case Stop(e) => Halted(e)
      case Piece(n, a, e) => Then(Gathered([n], [a], e), Collect(ps[1..]))
  }

  /** The header of the archive: the stem, then each name and artifact size, comma-separated, in brackets. */
  function OneFileHeader(stem: Bytes, names: seq<Bytes>, arts: seq<Bytes>): Bytes
    requires |names| == |arts|
  {
    stem + [OPEN] + FolderRoundTrip.Listing(names, arts) + [CLOSE]
  }

  /** What `compress_files_to_one_file` does, with `fs` the file system: the archive is the header, CRLF, and the artifacts. */
  function FilesToOne(args: seq<Bytes>, fs: map<Bytes, Bytes>): Archived
  {
    if ArgsError(args, fs).Some? then Refused(ArgsError(args, fs).value)
    else
      ArgsAccepted(args, fs);
      var out := OutputName(args[0]);
      Finish(out, StemOf(out), Collect(Pieces(args, fs)))
  }

  /** The end of `compress_files_to_one_file` once the pairs are gathered: the archive at `out`, unless a pair stopped it. */
  function Finish(out: Bytes, stem: Bytes, g: Gathered): Archived
    requires g.Gathered? ==> |g.names| == |g.arts|
  {
    match g
    case Halted(e) => e
    case Gathered(ns, xs, e) => Written(out, OneFileHeader(stem, ns, xs) + CRLF + Flatten(xs), e)
  }

  /** The name and size of one more file, after a comma. */
  function Appended(n: Bytes, a: Bytes): Bytes
  {
    [COMMA] + n + [COMMA] + Decimal(|a|)
  }

  lemma {:induction false} EntriesSnoc(names: seq<Bytes>, arts: seq<Bytes>, n: Bytes, a: Bytes, i: nat)
    requires |names| == |arts| && i < |names|
    ensures FolderRoundTrip.Entries(names + [n], arts + [a], i) == FolderRoundTrip.Entries(names, arts, i) + Appended(n, a)
    decreases |names| - i
  {
    var ns, xs := names + [n], arts + [a];
    var item := FolderRoundTrip.Item(names, arts, i);
    assert FolderRoundTrip.Item(ns, xs, i) == item;
    if i + 1 < |names| {
      EntriesSnoc(names, arts, n, a, i + 1);
      Regroup(item + [COMMA], FolderRoundTrip.Entries(names, arts, i + 1), Appended(n, a));
    } else {
      var last := FolderRoundTrip.Item(ns, xs, |names|);
      assert last == n + [COMMA] + Decimal(|a|);
      assert FolderRoundTrip.Entries(ns, xs, i) == item + [COMMA] + last;
      assert Appended(n, a) == [COMMA] + last;
    }
  }

  /** One more file in the listing: its name and size after a comma, or alone in an empty listing. */
  lemma ListingSnoc(names: seq<Bytes>, arts: seq<Bytes>, n: Bytes, a: Bytes)
    requires |names| == |arts|
    ensures FolderRoundTrip.Listing(names + [n], arts + [a]) ==
            FolderRoundTrip.Listing(names, arts) + (if names == [] then Appended(n, a)[1..] else Appended(n, a))
  {
    if names == [] {
      assert names + [n] == [n] && arts + [a] == [a];
      assert FolderRoundTrip.Listing([n], [a]) == n + [COMMA] + Decimal(|a|);
      assert Appended(n, a)[1..] == n + [COMMA] + Decimal(|a|);
    } else {
      EntriesSnoc(names, arts, n, a, 0);
    }
  }

  lemma ThenStep(names: seq<Bytes>, arts: seq<Bytes>, e: int, n: Bytes, a: Bytes, e1: int, rest: Gathered)
    ensures Then(Gathered(names, arts, e), Then(Gathered([n], [a], e1), rest)) == Then(Gathered(names + [n], arts + [a], e + e1), rest)
  {
    if rest.Gathered? {
      Regroup(names, [n], rest.names);
      Regroup(arts, [a], rest.arts);
    }
  }

  /** The header grown by one file, as the loop writes it: its last `]` replaced by the name, the size and `]`. */
  lemma HeaderStep(stem: Bytes, names: seq<Bytes>, arts: seq<Bytes>, n: Bytes, a: Bytes, add: Bytes)
    requires |names| == |arts|
    requires add == if names == [] then Appended(n, a)[1..] else Appended(n, a)
    ensures var header := OneFileHeader(stem, names, arts);
            header[..|header| - 1] + add + [CLOSE] == OneFileHeader(stem, names + [n], arts + [a])
  {
    ListingSnoc(names, arts, n, a);
    var header := OneFileHeader(stem, names, arts);
    var listing := FolderRoundTrip.Listing(names, arts);
    assert header[..|header| - 1] == stem + [OPEN] + listing;
    Regroup(stem + [OPEN], listing, add);
  }

  /** A new `Compressor` for the file, and the compression its method names. */
  method CompressWith(fileName: Bytes, m: Method, contents: Bytes, rs: int) returns (p: Piece)
    requires rs >= 1
    ensures p == Compressed(fileName, m, contents, rs)
  {
    var comp := new Compressor(fileName, m);
    var out: Option<Bytes>;
    ghost var artifact := if m == RLE then RleArtifact(fileName, m, contents, rs) else HufArtifact(fileName, m, contents);
    if m == RLE {
      out := comp.CompressRle(contents, rs);
    } else {
      out := comp.CompressHuf(contents);
    }
    assert out == artifact;
    if out.None? {
      return Stop(Raised);
    }
    assert comp.compressionEfficiency == |contents| - |out.value|;
    return Piece(BaseName(fileName), out.value, comp.compressionEfficiency);
  }

  /**
   * The loop body of `compress_files_to_one_file` on one accepted pair: the
   * checks of the constructor (their message when they fail), then the
   * compression.
   */
  method CompressPair(arg: Bytes, compressMethod: Bytes, fs: map<Bytes, Bytes>) returns (p: Piece)
    requires PairError(arg, compressMethod, fs) == None
    ensures p == PieceOf(arg, compressMethod, fs)
  {
    var fileName := ArgPath(arg);
    var m := CheckInit(fileName, Slice(compressMethod, 0, 3), fileName in fs);
    if m.None? {
      return Stop(Refused(PATH_MISSING));
    }
    var rs := if m.value == RLE then RepeatOf(compressMethod) else 1;
    p := CompressWith(fileName, m.value, fs[fileName], rs);
  }

  /** The pair at arguments `i` and `i + 1` compressed: the `k`-th of the pieces. */
  method CompressAt(args: seq<Bytes>, fs: map<Bytes, Bytes>, i: nat, ghost k: nat, ghost ps: seq<Piece>) returns (p: Piece)
    requires PiecesOf(args, fs, ps) && k < |ps| && i == 2 * k + 1
    ensures p == ps[k]
  {
    assert PairOk(args, fs, i);
    p := CompressPair(args[i], args[i + 1], fs);
    assert ps[k] == PieceAt(args, fs, k);
  }

  /**
   * What the loop of `compress_files_to_one_file` keeps after `k` of the
   * pieces `ps`: the header lists the files gathered so far, the data is
   * their artifacts, and those files followed by the rest give all pieces.
   */
  ghost predicate PackedSoFar(ps: seq<Piece>, k: nat, stem: Bytes,
                              names: seq<Bytes>, arts: seq<Bytes>, efficiency: int, header: Bytes, data: Bytes)
  {
    && k <= |ps| && |names| == k && |arts| == k
    && header == OneFileHeader(stem, names, arts) && data == Flatten(arts)
    && Then(Gathered(names, arts, efficiency), Collect(ps[k..])) == Collect(ps)
  }

  /** Before the loop: nothing gathered, the header an empty bracket pair. */
  lemma PackStart(ps: seq<Piece>, stem: Bytes)
    ensures PackedSoFar(ps, 0, stem, [], [], 0, stem + [OPEN, CLOSE], [])
  {
    assert ps[0..] == ps;
    assert OneFileHeader(stem, [], []) == stem + [OPEN, CLOSE];
  }

  /**
   * One more piece that compressed moves the loop on, to `k` pieces: the
   * header grows by its entry and the data by its artifact.
   */
  lemma PackAdvance(ps: seq<Piece>, k: nat, p: Piece, stem: Bytes,
                    names: seq<Bytes>, arts: seq<Bytes>, efficiency: int, header: Bytes, data: Bytes, add: Bytes,
                    names': seq<Bytes>, arts': seq<Bytes>, efficiency': int, header': Bytes, data': Bytes)
    requires 1 <= k <= |ps| && ps[k - 1] == p && p.Piece? && PackedSoFar(ps, k - 1, stem, names, arts, efficiency, header, data)
    requires add == if k == 1 then Appended(p.name, p.artifact)[1..] else Appended(p.name, p.artifact)
    requires names' == names + [p.name] && arts' == arts + [p.artifact] && efficiency' == efficiency + p.efficiency
    requires header' == header[..|header| - 1] + add + [CLOSE] && data' == data + p.artifact
    ensures PackedSoFar(ps, k, stem, names', arts', efficiency', header', data')
  {
    assert ps[k - 1..][1..] == ps[k..];
    HeaderStep(stem, names, arts, p.name, p.artifact, add);
    FlattenAppend(arts, [p.artifact]);
    ThenStep(names, arts, efficiency, p.name, p.artifact, p.efficiency, Collect(ps[k..]));
  }

  /** Once every piece is gathered, the archive is the one the loop has built. */
  lemma PackDone(ps: seq<Piece>, k: nat, out: Bytes, stem: Bytes,
                 names: seq<Bytes>, arts: seq<Bytes>, efficiency: int, header: Bytes, data: Bytes)
    requires k == |ps| && PackedSoFar(ps, k, stem, names, arts, efficiency, header, data)
    ensures Written(out, header + CRLF + data, efficiency) == Finish(out, stem, Collect(ps))
  {
    assert ps[k..] == [];
    assert names + [] == names && arts + [] == arts;
  }

  /** A piece that stops the loop stops `compress_files_to_one_file` with the same ending. */
  lemma PackStopped(ps: seq<Piece>, k: nat, out: Bytes, stem: Bytes,
                    names: seq<Bytes>, arts: seq<Bytes>, efficiency: int, header: Bytes, data: Bytes)
    requires k < |ps| && ps[k].Stop? && PackedSoFar(ps, k, stem, names, arts, efficiency, header, data)
    ensures ps[k].end == Finish(out, stem, Collect(ps))
  {
    assert ps[k..][0] == ps[k];
  }

  /**
   * The loop of `compress_files_to_one_file`: each pair compressed in turn,
   * the bracketed header grown by its name and size, its artifact appended.
   */
  method PackPairs(filesLst: seq<Bytes>, fs: map<Bytes, Bytes>, folderName: Bytes, folderNameNoType: Bytes, ghost ps: seq<Piece>)
    returns (r: Archived)
    requires PiecesOf(filesLst, fs, ps)
    ensures r == Finish(folderName, folderNameNoType, Collect(ps))
  {
    var header := folderNameNoType + [OPEN, CLOSE];
    var data: Bytes := [];
    var efficiency := 0;
    ghost var names: seq<Bytes> := [];
    ghost var arts: seq<Bytes> := [];
    PackStart(ps, folderNameNoType);
    var i := 1;
    ghost var k := 0;
    while i < |filesLst|
      invariant i == 2 * k + 1 && k <= |ps|
      invariant PackedSoFar(ps, k, folderNameNoType, names, arts, efficiency, header, data)
      decreases |filesLst| - i
    {
      var piece := CompressAt(filesLst, fs, i, k, ps);
      if piece.Stop? {
        PackStopped(ps, k, folderName, folderNameNoType, names, arts, efficiency, header, data);
        return piece.end;
      }
      var newFileData := piece.artifact;
      var fileName := piece.name;
      var addHeader := [COMMA] + fileName + [COMMA] + Decimal(|newFileData|);
      if i == 1 {
        addHeader := addHeader[1..];
      }
      ghost var names0, arts0, efficiency0, header0, data0 := names, arts, efficiency, header, data;
      header, data, efficiency := header[..|header| - 1] + addHeader + [CLOSE], data + newFileData, efficiency + piece.efficiency;
      names, arts := names + [fileName], arts + [newFileData];
      i, k := i + 2, k + 1;
      PackAdvance(ps, k, piece, folderNameNoType, names0, arts0, efficiency0, header0, data0, addHeader,
                  names, arts, efficiency, header, data);
    }
    PackDone(ps, k, folderName, folderNameNoType, names, arts, efficiency, header, data);
    return Written(folderName, header + CRLF + data, efficiency);
  }

  /**
   * `compress_files_to_one_file`: `check_args`, the file name of the
   * archive (`.txt` appended when missing) and its stem, then the loop over
   * the pairs; the archive holds the header, CRLF and the artifacts, and the
   * result carries the summed efficiencies.
   */
  method CompressFilesToOneFile(filesLst: seq<Bytes>, fs: map<Bytes, Bytes>) returns (r: Archived)
    ensures r == FilesToOne(filesLst, fs)
  {
    var check := CheckArgs(filesLst, fs);
    if check.Some? {
      return Refused(check.value);
    }
    var folderName := filesLst[0];
    if !(|folderName| >= 4 && folderName[|folderName| - 4..] == TXT) {
      folderName := folderName + TXT;
    }
    assert folderName == OutputName(filesLst[0]);
    var parts := Split(folderName, [DOT]);
    var folderNameNoType := Join(parts[..|parts| - 1], [DOT]);
    assert folderNameNoType == StemOf(folderName);
    FilesToOneAccepted(filesLst, fs);
    r := PackPairs(filesLst, fs, folderName, folderNameNoType, Pieces(filesLst, fs));
  }

  /** Arguments `check_args` accepts are archived pair by pair. */
  lemma FilesToOneAccepted(args: seq<Bytes>, fs: map<Bytes, Bytes>)
    requires ArgsError(args, fs) == None
    ensures |args| >= 1 && PairsOk(args, fs, 1)
    ensures PiecesOf(args, fs, Pieces(args, fs))
    ensures FilesToOne(args, fs) == Finish(OutputName(args[0]), StemOf(OutputName(args[0])), Collect(Pieces(args, fs)))
  {
    ArgsAccepted(args, fs);
    PiecesAre(args, fs);
  }
}
