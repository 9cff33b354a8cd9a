/**
 * The run-length decoder of the extractor: the payload is read in windows of
 * `KILO` bytes; inside a window each count takes the next `repeat_size` bytes
 * and repeats them, until the window or the counts run out.
 */
module RleExtract {
  import opened Bytes
  import opened Rle

  /** The output of `extract_one_kb_rle` for the window `kb`. */
  function WindowOut(kb: Bytes, rs: nat, sizes: seq<int>): Bytes
    requires rs >= 1
    decreases |sizes|
  {
    if sizes == [] then []
    else if Drop(kb, rs) == [] then Repeat(Slice(kb, 0, rs), sizes[0])
    else Repeat(Slice(kb, 0, rs), sizes[0]) + WindowOut(Drop(kb, rs), rs, sizes[1..])
  }

  /** How many counts `extract_one_kb_rle` consumes: one per unit taken, stopping once the window is empty. */
  function WindowUsed(kb: Bytes, rs: nat, sizes: seq<int>): (n: nat)
    requires rs >= 1
    ensures n <= |sizes|
    decreases |sizes|
  {
    if sizes == [] then 0
    else if Drop(kb, rs) == [] then 1
    else 1 + WindowUsed(Drop(kb, rs), rs, sizes[1..])
  }

  /** A step of the window loop with bytes left after the unit. */
  lemma WindowGo(oneKb: Bytes, rs: nat, sizes: seq<int>, i: nat, out: Bytes, kb: Bytes)
    requires rs >= 1 && i < |sizes|
    requires out + WindowOut(kb, rs, sizes[i..]) == WindowOut(oneKb, rs, sizes)
    requires i + WindowUsed(kb, rs, sizes[i..]) == WindowUsed(oneKb, rs, sizes)
    requires Drop(kb, rs) != []
    ensures (out + Repeat(Slice(kb, 0, rs), sizes[i])) + WindowOut(Drop(kb, rs), rs, sizes[i + 1..]) == WindowOut(oneKb, rs, sizes)
    ensures i + 1 + WindowUsed(Drop(kb, rs), rs, sizes[i + 1..]) == WindowUsed(oneKb, rs, sizes)
  {
    assert sizes[i..][1..] == sizes[i + 1..];
    Regroup(out, Repeat(Slice(kb, 0, rs), sizes[i]), WindowOut(Drop(kb, rs), rs, sizes[i + 1..]));
  }

  /** The step that empties the window ends the loop with everything accounted for. */
  lemma WindowEnd(oneKb: Bytes, rs: nat, sizes: seq<int>, i: nat, out: Bytes, kb: Bytes)
    requires rs >= 1 && i < |sizes|
    requires out + WindowOut(kb, rs, sizes[i..]) == WindowOut(oneKb, rs, sizes)
    requires i + WindowUsed(kb, rs, sizes[i..]) == WindowUsed(oneKb, rs, sizes)
    requires Drop(kb, rs) == []
    ensures out + Repeat(Slice(kb, 0, rs), sizes[i]) == WindowOut(oneKb, rs, sizes)
    ensures i + 1 == WindowUsed(oneKb, rs, sizes)
  {
  }

  /**
   * `extract_one_kb_rle`: for each count in turn, the next `repeat_size`
   * bytes of the window are repeated that many times; the loop stops early
   * when the window is used up, and the unused counts are returned.
   */
  method ExtractOneKbRle(oneKb: Bytes, repeatSize: nat, sizes: seq<int>) returns (originalData: Bytes, rest: seq<int>)
    requires repeatSize >= 1
    ensures originalData == WindowOut(oneKb, repeatSize, sizes)
    ensures rest == sizes[WindowUsed(oneKb, repeatSize, sizes)..]
  {
    originalData := [];
    var kbChunk := oneKb;
    var deleteSizes := 0;
    var i := 0;
    while i < |sizes|
      invariant 0 <= i <= |sizes| && deleteSizes == i
      invariant originalData + WindowOut(kbChunk, repeatSize, sizes[i..]) == WindowOut(oneKb, repeatSize, sizes)
      invariant i + WindowUsed(kbChunk, repeatSize, sizes[i..]) == WindowUsed(oneKb, repeatSize, sizes)
    {
      ghost var out0, kb0 := originalData, kbChunk;
      var chunkToOpen := Slice(kbChunk, 0, repeatSize);
      originalData := originalData + Repeat(chunkToOpen, sizes[i]);
      kbChunk := Drop(kbChunk, repeatSize);
      deleteSizes := deleteSizes + 1;
      if kbChunk == [] {
        WindowEnd(oneKb, repeatSize, sizes, i, out0, kb0);
        break;
      }
      WindowGo(oneKb, repeatSize, sizes, i, out0, kb0);
      i := i + 1;
    }
    if deleteSizes == |sizes| {
      assert originalData + [] == originalData;
    }
    rest := sizes[deleteSizes..];
  }

  /** The output of the RLE loop of `extractor`: window after window, the counts threaded through. */
  function DecodeRle(data: Bytes, rs: nat, sizes: seq<int>): Bytes
    requires rs >= 1
    decreases |data|
  {
    if data == [] then []
    else
      var kb := Slice(data, 0, KILO);
      WindowOut(kb, rs, sizes) + DecodeRle(Drop(data, KILO), rs, sizes[WindowUsed(kb, rs, sizes)..])
  }

  lemma DecodeStep(whole: Bytes, rs: nat, sizes0: seq<int>, out: Bytes, data: Bytes, sizes: seq<int>)
    requires rs >= 1 && data != []
    requires out + DecodeRle(data, rs, sizes) == DecodeRle(whole, rs, sizes0)
    ensures var kb := Slice(data, 0, KILO);
            (out + WindowOut(kb, rs, sizes)) + DecodeRle(Drop(data, KILO), rs, sizes[WindowUsed(kb, rs, sizes)..]) ==
            DecodeRle(whole, rs, sizes0)
  {
    var kb := Slice(data, 0, KILO);
    Regroup(out, WindowOut(kb, rs, sizes), DecodeRle(Drop(data, KILO), rs, sizes[WindowUsed(kb, rs, sizes)..]));
  }

  /**
   * The RLE loop of `extractor`: take the first 1000 bytes of the payload,
   * decode them with the counts left, and go on with the rest of the
   * payload until it is empty.
   */
  method ExtractRleData(data: Bytes, repeatSize: nat, sizes: seq<int>) returns (originalData: Bytes)
    requires repeatSize >= 1
    ensures originalData == DecodeRle(data, repeatSize, sizes)
  {
    originalData := [];
    var rest := data;
    var counts := sizes;
    var oneKb := Slice(rest, 0, KILO);
    while oneKb != []
      invariant oneKb == Slice(rest, 0, KILO)
      invariant originalData + DecodeRle(rest, repeatSize, counts) == DecodeRle(data, repeatSize, sizes)
      decreases |rest|
    {
      DecodeStep(data, repeatSize, sizes, originalData, rest, counts);
      var newDataToAdd;
      newDataToAdd, counts := ExtractOneKbRle(oneKb, repeatSize, counts);
      originalData := originalData + newDataToAdd;
      rest := Drop(rest, KILO);
      oneKb := Slice(rest, 0, KILO);
    }
    assert rest == [];
    assert originalData + [] == originalData;
  }

  /* ---------------------------------------------------------------------- */
  /* Decoding what the encoder wrote                                         */

  /** The counts of a run list, in order. */
  function Counts(runs: seq<Run>): (c: seq<int>)
    ensures |c| == |runs|
  {
    seq(|runs|, i requires 0 <= i < |runs| => runs[i].count)
  }

  lemma RunBytesCons(r: Run, t: seq<Run>)
    ensures RunBytes([r] + t) == r.unit + RunBytes(t)
    ensures Expand([r] + t) == Repeat(r.unit, r.count) + Expand(t)
  {
    RunBytesAppend([r], t);
    ExpandAppend([r], t);
    assert [r][..0] == [];
  }

  lemma {:induction false} RunBytesNonEmpty(runs: seq<Run>, rs: nat)
    requires runs != [] && Shaped(runs, rs)
    ensures |RunBytes(runs)| >= 1
  {
  }

  /**
   * A window made of the units of shaped runs, followed by their counts
   * (and possibly more), decodes to what the runs stand for and consumes
   * exactly one count per run.
   */
  lemma {:induction false} WindowRuns(runs: seq<Run>, rs: nat, more: seq<int>)
    requires rs >= 1 && runs != [] && Shaped(runs, rs)
    ensures WindowOut(RunBytes(runs), rs, Counts(runs) + more) == Expand(runs)
    ensures WindowUsed(RunBytes(runs), rs, Counts(runs) + more) == |runs|
    decreases |runs|
  {
    var r := runs[0];
    var t := runs[1..];
    assert runs == [r] + t;
    RunBytesCons(r, t);
    var kb := RunBytes(runs);
    var sizes := Counts(runs) + more;
    assert sizes[0] == r.count;
    if t == [] {
      assert kb == r.unit + [];
      assert Slice(kb, 0, rs) == r.unit && Drop(kb, rs) == [];
      assert Expand(runs) == Repeat(r.unit, r.count) + [];
    } else {
      assert |r.unit| == rs;
      assert Shaped(t, rs);
      RunBytesNonEmpty(t, rs);
      assert Slice(kb, 0, rs) == r.unit;
      assert Drop(kb, rs) == RunBytes(t);
      assert sizes[1..] == Counts(t) + more;
      WindowRuns(t, rs, more);
    }
  }

  /** The units of shaped runs cut at a whole number of units: a prefix of the runs ends exactly there. */
  lemma {:induction false} ShapedPrefix(runs: seq<Run>, rs: nat, n: nat) returns (m: nat)
    requires rs >= 1 && Shaped(runs, rs) && Fits(n, rs) && n < |RunBytes(runs)|
    ensures m < |runs| && |RunBytes(runs[..m])| == n
    decreases n
  {
    if n == 0 {
      m := 0;
      assert runs[..0] == [];
    } else {
      var k := ShapedPrefix(runs, rs, n - rs);
      assert runs[..k + 1][..k] == runs[..k];
      assert |RunBytes(runs[..k + 1])| == |RunBytes(runs[..k])| + |runs[k].unit|;
      m := k + 1;
    }
  }

  /** A prefix and a suffix of shaped runs are shaped. */
  lemma ShapedSplit(runs: seq<Run>, rs: nat, m: nat)
    requires Shaped(runs, rs) && m <= |runs|
    ensures Shaped(runs[..m], rs) && Shaped(runs[m..], rs)
  {
    var a, b := runs[..m], runs[m..];
    assert forall i :: 0 <= i < |a| ==> a[i] == runs[i];
    assert forall i :: 0 <= i < |b| ==> b[i] == runs[m + i];
  }

  /**
   * The payload of shaped runs, when `rs` divides 1000, decodes with the runs'
   * counts to what the runs stand for: each 1000-byte window holds whole
   * units and consumes one count per unit.
   */
  lemma {:induction false} DecodeRuns(runs: seq<Run>, rs: nat)
    requires rs >= 1 && Fits(KILO, rs) && Shaped(runs, rs)
    ensures DecodeRle(RunBytes(runs), rs, Counts(runs)) == Expand(runs)
    decreases |RunBytes(runs)|
  {
    var p := RunBytes(runs);
    if runs == [] {
    } else if |p| <= KILO {
      RunBytesNonEmpty(runs, rs);
      assert Slice(p, 0, KILO) == p && Drop(p, KILO) == [];
      WindowRuns(runs, rs, []);
      assert Counts(runs) + [] == Counts(runs);
      assert Counts(runs)[|runs|..] == [];
      assert Expand(runs) + [] == Expand(runs);
    } else {
      var m := ShapedPrefix(runs, rs, KILO);
      var a, b := runs[..m], runs[m..];
      assert runs == a + b;
      RunBytesAppend(a, b);
      ExpandAppend(a, b);
      ShapedSplit(runs, rs, m);
      assert Counts(runs) == Counts(a) + Counts(b);
      assert Slice(p, 0, KILO) == RunBytes(a);
      assert Drop(p, KILO) == RunBytes(b);
      WindowRuns(a, rs, Counts(b));
      assert (Counts(a) + Counts(b))[|a|..] == Counts(b);
      DecodeRuns(b, rs);
    }
  }

  /* ---------------------------------------------------------------------- */
  /* The head of an RLE artifact                                             */

  /** What `extract_head_rle` returns. */
  datatype RleHead = RleHead(repeatSize: int, sizes: seq<int>, data: Bytes)

  /** `int()` applied to each word in turn; `None` as soon as one is not a number. */
  function ParseAll(words: seq<Bytes>): Option<seq<int>>
  {
    if words == [] then Some([])
    else match ParseAll(words[..|words| - 1])
      case None => None
      case Some(xs) =>
        match ParseInt(words[|words| - 1])
        case None => None
        case Some(v) => Some(xs + [v])
  }

  /** The list is produced exactly when every word is a number, and then holds their values in order. */
  lemma {:induction false} ParseAllMeaning(words: seq<Bytes>)
    ensures ParseAll(words).Some? <==> forall i :: 0 <= i < |words| ==> ParseInt(words[i]).Some?
    ensures ParseAll(words).Some? ==>
              |ParseAll(words).value| == |words| &&
              forall i :: 0 <= i < |words| ==> ParseAll(words).value[i] == ParseInt(words[i]).value
  {
    if words != [] {
      var p := words[..|words| - 1];
      ParseAllMeaning(p);
      assert forall i :: 0 <= i < |p| ==> p[i] == words[i];
    }
  }

  /**
   * `extract_head_rle`, with every exception the extractor catches as
   * `None`: line 1 read by `int()`, line 2 split on commas and each piece
   * read by `int()`, and the lines after them joined back with CRLF.  Each
   * of the two lines must first decode as UTF-8.
   */
  function HeadRle(lines: seq<Bytes>): Option<RleHead>
  {
    if |lines| < 3 || !IsUtf8(lines[1]) then None
    else match ParseInt(lines[1])
      case None => None
      case Some(r) =>
        if !IsUtf8(lines[2]) then None
        else match ParseAll(Split(lines[2], [COMMA]))
          case None => None
          case Some(sizes) => Some(RleHead(r, sizes, Join(lines[3..], CRLF)))
  }

  /** The loop of `extract_head_rle` over the comma-separated counts. */
  method ParseSizes(sizesStr: seq<Bytes>) returns (sizes: Option<seq<int>>)
    ensures sizes == ParseAll(sizesStr)
  {
    var acc: seq<int> := [];
    for i := 0 to |sizesStr|
      invariant ParseAll(sizesStr[..i]) == Some(acc)
    {
      assert sizesStr[..i + 1][..i] == sizesStr[..i];
      var num := ParseInt(sizesStr[i]);
      if num.None? {
        ParseAllNone(sizesStr, i + 1);
        return None;
      }
      acc := acc + [num.value];
    }
    assert sizesStr[..|sizesStr|] == sizesStr;
    sizes := Some(acc);
  }

  /** Once a prefix fails to parse, the whole list fails. */
  lemma {:induction false} ParseAllNone(words: seq<Bytes>, n: nat)
    requires n <= |words| && ParseAll(words[..n]).None?
    ensures ParseAll(words).None?
    decreases |words| - n
  {
    if n < |words| {
      assert words[..n + 1][..n] == words[..n];
      ParseAllNone(words, n + 1);
    } else {
      assert words[..n] == words;
    }
  }

  /** `extract_head_rle`: the repeat size, the counts and the payload of an RLE artifact. */
  method ExtractHeadRle(dataList: seq<Bytes>) returns (head: Option<RleHead>)
    ensures head == HeadRle(dataList)
  {
    if |dataList| < 3 || !IsUtf8(dataList[1]) {
      return None;
    }
    var repeatSize := ParseInt(dataList[1]);
    if repeatSize.None? || !IsUtf8(dataList[2]) {
      return None;
    }
    var sizesStr := Split(dataList[2], [COMMA]);
    var sizes := ParseSizes(sizesStr);
    if sizes.None? {
      return None;
    }
    var data := Join(dataList[3..], CRLF);
    head := Some(RleHead(repeatSize.value, sizes.value, data));
  }

  /* ---------------------------------------------------------------------- */
  /* Reading back the count line the encoder wrote                           */

  /** The decimal counts of a run list, one word each. */
  function Words(runs: seq<Run>): (w: seq<Bytes>)
    ensures |w| == |runs|
  {
    seq(|runs|, i requires 0 <= i < |runs| => Decimal(runs[i].count))
  }

  /** The count line of a non-empty run list is its words joined by commas, plus a final comma. */
  lemma {:induction false} CountTextWords(runs: seq<Run>)
    requires runs != []
    ensures CountText(runs) == Join(Words(runs), [COMMA]) + [COMMA]
    decreases |runs|
  {
    var r, t := runs[0], runs[1..];
    assert runs == [r] + t;
    CountTextAppend([r], t);
    assert [r][..0] == [];
    var d := Decimal(r.count);
    assert CountText([r]) == d + [COMMA];
    if t == [] {
      assert Words(runs) == [d];
      assert CountText(runs) == CountText([r]) + [];
    } else {
      CountTextWords(t);
      assert Words(runs) == [d] + Words(t);
      JoinCons(d, Words(t), [COMMA]);
      Regroup(d + [COMMA], Join(Words(t), [COMMA]), [COMMA]);
    }
  }

  lemma DecimalNoComma(n: nat)
    ensures COMMA !in Decimal(n) && IsAscii(Decimal(n))
  {
    DecimalDigits(n);
  }

  lemma {:induction false} JoinAscii(parts: seq<Bytes>)
    requires forall i :: 0 <= i < |parts| ==> IsAscii(parts[i])
    ensures IsAscii(Join(parts, [COMMA]))
    decreases |parts|
  {
    if |parts| > 1 {
      JoinAscii(parts[1..]);
      var j := Join(parts[1..], [COMMA]);
      assert Join(parts, [COMMA]) == parts[0] + [COMMA] + j;
      assert IsAscii(parts[0]);
    }
  }

  /**
   * The count line without its final comma, as the compressor writes it,
   * decodes, splits back into the words and parses back to the counts.
   */
  lemma CountLineParses(runs: seq<Run>)
    requires runs != []
    ensures IsUtf8(DropLast(CountText(runs)))
    ensures ParseAll(Split(DropLast(CountText(runs)), [COMMA])) == Some(Counts(runs))
  {
    CountTextWords(runs);
    var w := Words(runs);
    var line := Join(w, [COMMA]);
    assert DropLast(CountText(runs)) == line;
    forall i | 0 <= i < |w| ensures COMMA !in w[i] && IsAscii(w[i]) {
      DecimalNoComma(runs[i].count);
    }
    JoinAscii(w);
    AsciiIsUtf8(line);
    SplitJoin(w, COMMA);
    ParseAllMeaning(w);
    forall i | 0 <= i < |w| ensures ParseInt(w[i]) == Some(runs[i].count) {
      ParseDecimal(runs[i].count);
    }
    ParseAllMeaning(w);
    assert ParseAll(w).value == Counts(runs);
  }
}
