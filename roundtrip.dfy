/**
 * What extraction gives back: the tree header reads back as the tree, the
 * packed bits unpack to the codes, the codes decode to the data, and a whole
 * artifact extracts to the file it was made from, within the limits the
 * format has.
 */
module RoundTrip {
  import opened Bytes
  import opened TreeNode
  import opened Huffman
  import opened Packing
  import opened Rle
  import opened RleExtract
  import opened Compress
  import opened Extract

  /* ---------------------------------------------------------------------- */
  /* The tree header                                                         */

  /** The serialisation of a tree is its tokens, each followed by a comma. */
  lemma {:induction false} SerialText(t: Tree)
    ensures Serial(t) == Text(Tokens(t))
  {
    match t
    case Leaf(_, b) =>
      assert Tokens(t)[1..] == [];
      assert Text(Tokens(t)) == [b, LOWER_L] + [COMMA] + [];
    case Node(w, l, rt) =>
      SerialText(l);
      SerialText(rt);
      TextAppend(Tokens(l), Tokens(rt));
      var d := Decimal(w);
      assert ([d] + Tokens(l) + Tokens(rt))[1..] == Tokens(l) + Tokens(rt);
      Regroup(d + [COMMA], Serial(l), Serial(rt));
  }

  /** A token splitting on commas can give back: either comma-free (and not a lone `l`), or the leaf token of ','. */
  predicate GoodToken(x: Bytes)
  {
    x == [COMMA, LOWER_L] || (x != [] && x != [LOWER_L] && COMMA !in x)
  }

  lemma {:induction false} TokensGood(t: Tree)
    ensures forall i :: 0 <= i < |Tokens(t)| ==> GoodToken(Tokens(t)[i])
  {
    match t
    case Leaf(_, b) =>
    case Node(w, l, rt) =>
      TokensGood(l);
      TokensGood(rt);
      DecimalDigits(w);
      var d := Decimal(w);
      assert !IsDigit(COMMA) && !IsDigit(LOWER_L);
      assert d != [LOWER_L] by { assert IsDigit(d[0]); }
      var ts := Tokens(t);
      forall i | 0 <= i < |ts| ensures GoodToken(ts[i]) {
        if i == 0 {
        } else if i < 1 + |Tokens(l)| {
          assert ts[i] == Tokens(l)[i - 1];
        } else {
          assert ts[i] == Tokens(rt)[i - 1 - |Tokens(l)|];
        }
      }
  }

  lemma NormCons(x: Bytes, xs: seq<Bytes>)
    ensures Norm([x] + xs) == Keep(x) + Norm(xs)
  {
    NormAppend([x], xs);
    assert [x][..0] == [];
  }

  /** The leaf token of ',' splits into an empty piece and `l`, which normalise back to it. */
  lemma SplitCommaLeaf(tail: Bytes)
    ensures Norm(Split([COMMA, LOWER_L] + [COMMA] + tail, [COMMA])) == [[COMMA, LOWER_L]] + Norm(Split(tail, [COMMA]))
  {
    assert [COMMA, LOWER_L] + [COMMA] + tail == [] + [COMMA] + ([LOWER_L] + [COMMA] + tail);
    SplitFirstByte([], COMMA, [LOWER_L] + [COMMA] + tail);
    SplitFirstByte([LOWER_L], COMMA, tail);
    var s := Split(tail, [COMMA]);
    NormCons([], [[LOWER_L]] + s);
    NormCons([LOWER_L], s);
  }

  /** A comma-free token splits off as itself and is kept as it is. */
  lemma SplitPlainToken(x: Bytes, tail: Bytes)
    requires x != [] && x != [LOWER_L] && COMMA !in x
    ensures Norm(Split(x + [COMMA] + tail, [COMMA])) == [x] + Norm(Split(tail, [COMMA]))
  {
    SplitFirstByte(x, COMMA, tail);
    NormCons(x, Split(tail, [COMMA]));
  }

  /** Splitting the text of good tokens on commas and normalising gives the tokens back. */
  lemma {:induction false} NormSplitText(toks: seq<Bytes>)
    requires forall i :: 0 <= i < |toks| ==> GoodToken(toks[i])
    ensures Norm(Split(Text(toks), [COMMA])) == toks
    decreases |toks|
  {
    if toks == [] {
      SplitNoByte([], COMMA);
    } else {
      var x, rest := toks[0], toks[1..];
      assert Text(toks) == x + [COMMA] + Text(rest);
      assert forall i :: 0 <= i < |rest| ==> GoodToken(rest[i]) by {
        forall i | 0 <= i < |rest| ensures GoodToken(rest[i]) {
          assert rest[i] == toks[i + 1];
        }
      }
      NormSplitText(rest);
      assert Norm(Split(Text(toks), [COMMA])) == [x] + Norm(Split(Text(rest), [COMMA])) by {
        assert GoodToken(toks[0]);
        if x == [COMMA, LOWER_L] {
          SplitCommaLeaf(Text(rest));
        } else {
          SplitPlainToken(x, Text(rest));
        }
      }
      assert toks == [x] + rest;
    }
  }

  /** The reader takes the tokens of a tree off the front of a list and leaves what follows. */
  lemma {:induction false} ExtractTokens(t: Tree, more: seq<Bytes>)
    ensures RecursiveExtract(Tokens(t) + more) == Some(Parsed(Erase(t), more))
  {
    match t
    case Leaf(_, b) =>
      assert (Tokens(t) + more)[1..] == more;
      assert [b, LOWER_L][..1] == [b];
    case Node(w, l, rt) =>
      var d := Decimal(w);
      DecimalDigits(w);
      assert !(|d| > 1 && d[1] == LOWER_L) by {
        if |d| > 1 { assert IsDigit(d[1]); }
      }
      var toks := Tokens(t) + more;
      assert toks[0] == d;
      assert toks[1..] == Tokens(l) + (Tokens(rt) + more);
      ExtractTokens(l, Tokens(rt) + more);
      ExtractTokens(rt, more);
  }

  /** `extract_huf_tree` reads back the tree `tree_str` wrote, for every byte at the leaves, ',' included. */
  lemma TreeRoundTrip(t: Tree)
    ensures HufTreeOf(Serial(t)) == Some(Erase(t))
  {
    SerialText(t);
    TokensGood(t);
    NormSplitText(Tokens(t));
    ExtractTokens(t, []);
    assert Tokens(t) + [] == Tokens(t);
  }

  /* ---------------------------------------------------------------------- */
  /* The packed bits                                                         */

  lemma {:induction false} BitsFromBytesAppend(a: Bytes, b: Bytes)
    ensures BitsFromBytes(a + b) == BitsFromBytes(a) + BitsFromBytes(b)
    decreases |b|
  {
    if b == [] {
      assert a + b == a;
    } else {
      var front := b[..|b| - 1];
      assert (a + b)[..|a + b| - 1] == a + front;
      assert (a + b)[|a + b| - 1] == b[|b| - 1];
      BitsFromBytesAppend(a, front);
      Regroup(BitsFromBytes(a), BitsFromBytes(front), BitsOf(b[|b| - 1], 8));
    }
  }

  /** `bits_str_from_bytes` undoes the packing of `create_huf_data`, eight bits per byte. */
  lemma {:induction false} UnpackPack(bits: Bits)
    requires |bits| % 8 == 0
    ensures BitsFromBytes(PackBits(bits)) == bits
    decreases |bits|
  {
    if bits != [] {
      var v := Value(bits[..8]);
      UnpackPack(bits[8..]);
      BitsFromBytesAppend([v], PackBits(bits[8..]));
      assert [v][..0] == [];
      BitsOfValue(bits[..8]);
      assert BitsFromBytes([v]) == [] + BitsOf(v, 8);
      assert bits == bits[..8] + bits[8..];
    }
  }

  /** The trailer of a packed payload is one ASCII digit, the pad length, after the packed padded bits. */
  lemma PayloadTrailer(data: Bytes, m: map<byte, Bits>)
    requires forall i :: 0 <= i < |data| ==> data[i] in m
    ensures var bits := EncodeBits(data, m);
            var p := HufData(data, m);
            p != [] && p[|p| - 1] == 48 + PadLen(bits) &&
            p[..|p| - 1] == PackBits(bits + Zeros(PadLen(bits)))
  {
    var bits := EncodeBits(data, m);
    var k := PadLen(bits);
    assert Decimal(k) == [48 + k] by { assert Digits(k) == [48 + k]; }
  }

  lemma UnpackPadded(bits: Bits)
    ensures BitsFromBytes(PackBits(bits + Zeros(PadLen(bits)))) == bits + Zeros(PadLen(bits))
  {
    UnpackPack(bits + Zeros(PadLen(bits)));
  }

  /** The bits the decoder recovers from a packed payload: exactly the codes, the padding dropped. */
  lemma PayloadBits(data: Bytes, m: map<byte, Bits>)
    requires forall i :: 0 <= i < |data| ==> data[i] in m
    ensures var p := HufData(data, m);
            p != [] && IsUtf8([p[|p| - 1]]) && ParseInt([p[|p| - 1]]).Some? &&
            TrimBits(BitsFromBytes(p[..|p| - 1]), ParseInt([p[|p| - 1]]).value) == EncodeBits(data, m)
  {
    var bits := EncodeBits(data, m);
    var k := PadLen(bits);
    var p := HufData(data, m);
    PayloadTrailer(data, m);
    TrailerParses(p, k);
    UnpackPadded(bits);
    TrimPadded(bits, k);
  }

  /** A last byte that is the digit `k` decodes as text and parses as `k`. */
  lemma TrailerParses(p: Bytes, k: nat)
    requires p != [] && k <= 9 && p[|p| - 1] == 48 + k
    ensures IsUtf8([p[|p| - 1]]) && ParseInt([p[|p| - 1]]) == Some(k)
  {
    AsciiIsUtf8([p[|p| - 1]]);
    ParseOneByte(48 + k);
  }

  /** `bits[:-k]` drops exactly the `k` padding bits. */
  lemma TrimPadded(bits: Bits, k: nat)
    requires k >= 1
    ensures TrimBits(bits + Zeros(k), k) == bits
  {
    assert (bits + Zeros(k))[..|bits|] == bits;
  }

  /* ---------------------------------------------------------------------- */
  /* Decoding the codes                                                      */

  /** Walking the read tree along a leaf's root path reaches that leaf and consumes exactly the path. */
  lemma {:induction false} ReadCode(t: Tree, b: byte, rest: Bits)
    requires b in Syms(t)
    ensures ReadDataFromTree(Code(t, b) + rest, Erase(t)) == Some(Step(rest, [b]))
  {
    match t
    case Leaf(_, c) =>
      assert Code(t, b) + rest == rest;
    case Node(_, l, rt) =>
      var bits := Code(t, b) + rest;
      if b in Syms(l) {
        assert bits[1..] == Code(l, b) + rest;
        ReadCode(l, b, rest);
      } else {
        assert bits[1..] == Code(rt, b) + rest;
        ReadCode(rt, b, rest);
      }
  }

  lemma {:induction false} EncodeBitsAppend(a: Bytes, b: Bytes, m: map<byte, Bits>)
    requires forall i :: 0 <= i < |a| ==> a[i] in m
    requires forall i :: 0 <= i < |b| ==> b[i] in m
    ensures forall i :: 0 <= i < |a + b| ==> (a + b)[i] in m
    ensures EncodeBits(a + b, m) == EncodeBits(a, m) + EncodeBits(b, m)
    decreases |b|
  {
    if b == [] {
      assert a + b == a;
    } else {
      assert (a + b)[..|a + b| - 1] == a + b[..|b| - 1];
      EncodeBitsAppend(a, b[..|b| - 1], m);
      Regroup(EncodeBits(a, m), EncodeBits(b[..|b| - 1], m), m[b[|b| - 1]]);
    }
  }

  /** A map every code of which leads through `t` to its own byte and is not empty. */
  ghost predicate Decodes(m: map<byte, Bits>, t: ReadTree)
  {
    forall b, rest :: b in m ==> m[b] != [] && ReadDataFromTree(m[b] + rest, t) == Some(Step(rest, [b]))
  }

  /** With such a map, decoding the concatenated codes gives the data back. */
  lemma {:induction false} DecodeEncoded(data: Bytes, m: map<byte, Bits>, t: ReadTree)
    requires forall i :: 0 <= i < |data| ==> data[i] in m
    requires Decodes(m, t)
    ensures DecodeAll(EncodeBits(data, m), t) == Decoded(data)
    decreases |data|
  {
    if data != [] {
      var b, tail := data[0], data[1..];
      EncodeFront(data, m);
      DecodeOne(b, EncodeBits(tail, m), m, t);
      DecodeEncoded(tail, m, t);
      assert [b] + tail == data;
    }
  }

  lemma EncodeFront(data: Bytes, m: map<byte, Bits>)
    requires data != [] && forall i :: 0 <= i < |data| ==> data[i] in m
    ensures EncodeBits(data, m) == m[data[0]] + EncodeBits(data[1..], m)
  {
    var b := data[0];
    assert data == [b] + data[1..];
    EncodeBitsAppend([b], data[1..], m);
    assert [b][..0] == [];
    assert EncodeBits([b], m) == [] + m[b];
  }

  /** One step of the decoding loop reads back one whole code. */
  lemma DecodeOne(b: byte, rest: Bits, m: map<byte, Bits>, t: ReadTree)
    requires b in m && Decodes(m, t)
    ensures DecodeAll(m[b] + rest, t) == Then([b], DecodeAll(rest, t))
  {
    var bits := m[b] + rest;
    assert ReadDataFromTree(bits, t) == Some(Step(rest, [b]));
    assert rest != bits;
  }

  /** The final map of a Huffman tree decodes through the tree the header holds. */
  lemma FinalMapDecodes(root: Tree)
    requires forall c :: LeafBag(root)[c] <= 1
    ensures Decodes(FinalMap(root), Erase(HeadTree(root)))
  {
    var m := FinalMap(root);
    var t := Erase(HeadTree(root));
    forall b, rest | b in m ensures m[b] != [] && ReadDataFromTree(m[b] + rest, t) == Some(Step(rest, [b])) {
      if root.Leaf? {
        FinalMapLeaf(root);
        assert b == root.sym && m[b] == [true];
        assert HeadTree(root) == Node(root.weight, root, root);
        assert Erase(root) == RLeaf([b]);
        assert t == RNode(Decimal(root.weight), RLeaf([b]), RLeaf([b]));
        assert ([true] + rest)[1..] == rest;
        assert ReadDataFromTree([true] + rest, t) == ReadDataFromTree(rest, RLeaf([b]));
      } else {
        FinalMapNode(root, b);
        ReadCode(root, b, rest);
        assert |Code(root, b)| >= 1;
      }
    }
  }

  /* ---------------------------------------------------------------------- */
  /* Whole artifacts                                                         */

  /** The first line of an artifact: the method, a comma and the file type. */
  lemma HeaderLine(m: Method, ft: Bytes)
    requires NoCrlf(ft) && IsUtf8(ft)
    ensures var h := MethodName(m) + [COMMA] + ft;
            NoCrlf(h) && IsUtf8(h) && StartsWith(h, MethodName(m))
  {
    var a := MethodName(m) + [COMMA];
    AsciiIsUtf8(a);
    Utf8Append(a, ft);
    assert NoCrlf(a) by {
      match m
      case RLE => assert a == [82, 76, 69, 44];
      case HUF => assert a == [72, 85, 70, 44];
    }
    NoCrlfAppend(a, ft);
    assert (a + ft)[..3] == MethodName(m);
  }

  lemma MethodNamesDiffer()
    ensures MethodName(RLE) == Ascii("RLE") && MethodName(HUF) == Ascii("HUF")
    ensures !StartsWith(MethodName(HUF) + [COMMA], Ascii("RLE"))
  {
    assert (MethodName(HUF) + [COMMA])[0] == 72;
  }

  /** Splitting three lines whose first two hold no CRLF. */
  lemma SplitThree(h0: Bytes, h1: Bytes, p: Bytes)
    requires NoCrlf(h0) && NoCrlf(h1)
    ensures Split(h0 + CRLF + h1 + CRLF + p, CRLF) == [h0, h1] + Split(p, CRLF)
  {
    SplitCrlf(h1, p);
    var rest := h1 + CRLF + p;
    assert h0 + CRLF + h1 + CRLF + p == h0 + CRLF + rest;
    SplitCrlf(h0, rest);
  }

  /** The first piece of a split is empty only for an empty string or one that starts with the separator. */
  lemma SplitHeadEmpty(p: Bytes)
    ensures Split(p, CRLF)[0] == [] <==> p == [] || StartsWith(p, CRLF)
  {
    var i := Find(p, CRLF);
    if i > 0 {
      assert !OccursAt(p, CRLF, 0);
    }
    if StartsWith(p, CRLF) {
      assert OccursAt(p, CRLF, 0);
    }
  }

  /** `extractor` on an artifact laid out as three or more lines: what it does with the HUF tag. */
  lemma ExtractHufLines(h0: Bytes, h1: Bytes, p: Bytes)
    requires NoCrlf(h0) && NoCrlf(h1) && IsUtf8(h0)
    requires StartsWith(h0, Ascii("HUF")) && !StartsWith(h0, Ascii("RLE"))
    requires p != [] && !StartsWith(p, CRLF)
    ensures Extracted(h0 + CRLF + h1 + CRLF + p) ==
            match HufTreeOf(h1)
            case None => Message(NOT_COMPRESSED_CAUSE)
            case Some(root) =>
              match DecodeHuf(p, root)
              case Decoded(o) => Data(o)
              case Fails => Message(NOT_COMPRESSED_CAUSE)
              case Loops => Hangs
  {
    var lines := Split(h0 + CRLF + h1 + CRLF + p, CRLF);
    SplitThree(h0, h1, p);
    SplitHeadEmpty(p);
    assert lines[2..] == Split(p, CRLF);
    JoinSplit(p, CRLF);
  }

  /**
   * A HUF artifact of non-empty data extracts to that data, provided its
   * file type keeps to one line and is text, and its packed payload does not
   * happen to begin with CR LF.
   */
  lemma HufRoundTrip(fileName: Bytes, data: Bytes)
    requires data != []
    requires var ft := FileType(fileName, Extension(fileName)); NoCrlf(ft) && IsUtf8(ft)
    requires !StartsWith(HufPayload(data), CRLF)
    ensures HufArtifact(fileName, HUF, data).Some?
    ensures Extracted(HufArtifact(fileName, HUF, data).value) == Data(data)
  {
    var ft := FileType(fileName, Extension(fileName));
    HufArtifactShape(fileName, data);
    var root := HufRoot(data).value;
    var h0 := MethodName(HUF) + [COMMA] + ft;
    HeaderLine(HUF, ft);
    MethodNamesDiffer();
    assert !StartsWith(h0, Ascii("RLE")) by {
      assert h0[0] == 72;
    }
    SerialNoCrlf(HeadTree(root));
    ExtractHufLines(h0, Serial(HeadTree(root)), HufPayload(data));
    TreeRoundTrip(HeadTree(root));
    PayloadDecodes(data);
  }

  /** The packed payload decodes, through the header tree, to the data. */
  lemma PayloadDecodes(data: Bytes)
    requires data != []
    ensures HufRoot(data).Some?
    ensures DecodeHuf(HufPayload(data), Erase(HeadTree(HufRoot(data).value))) == Decoded(data)
  {
    HufRootFacts(data);
    RootCoversData(data);
    var root := HufRoot(data).value;
    var m := FinalMap(root);
    PayloadBits(data, m);
    FinalMapDecodes(root);
    DecodeEncoded(data, m, Erase(HeadTree(root)));
  }

  /**
   * When the packed payload happens to begin with CR LF, line 2 of the
   * artifact is empty and `extractor` returns no bytes at all.
   */
  lemma HufLeadingCrlf(fileName: Bytes, data: Bytes)
    requires data != []
    requires var ft := FileType(fileName, Extension(fileName)); NoCrlf(ft) && IsUtf8(ft)
    requires StartsWith(HufPayload(data), CRLF)
    ensures HufArtifact(fileName, HUF, data).Some?
    ensures Extracted(HufArtifact(fileName, HUF, data).value) == Data([])
  {
    var ft := FileType(fileName, Extension(fileName));
    HufArtifactShape(fileName, data);
    var root := HufRoot(data).value;
    var h0 := MethodName(HUF) + [COMMA] + ft;
    HeaderLine(HUF, ft);
    SerialNoCrlf(HeadTree(root));
    SplitHeadEmpty(HufPayload(data));
    EmptyThirdLine(h0, Serial(HeadTree(root)), HufPayload(data));
  }

  /** Whatever the method, an artifact whose third line is empty extracts to nothing. */
  lemma EmptyThirdLine(h0: Bytes, h1: Bytes, p: Bytes)
    requires NoCrlf(h0) && NoCrlf(h1) && IsUtf8(h0) && Split(p, CRLF)[0] == []
    ensures Extracted(h0 + CRLF + h1 + CRLF + p) == Data([])
  {
    SplitThree(h0, h1, p);
  }

  /** A comma-joined line of parts without CR has no CR. */
  lemma {:induction false} JoinNoCr(parts: seq<Bytes>)
    requires forall i :: 0 <= i < |parts| ==> CR !in parts[i]
    ensures CR !in Join(parts, [COMMA])
    decreases |parts|
  {
    if |parts| > 1 {
      JoinNoCr(parts[1..]);
      assert Join(parts, [COMMA]) == parts[0] + [COMMA] + Join(parts[1..], [COMMA]);
      assert CR !in parts[0];
    }
  }

  /** The count line the encoder writes is one non-empty line. */
  lemma CountLineOneLine(runs: seq<Run>)
    requires runs != []
    ensures NoCrlf(DropLast(CountText(runs))) && DropLast(CountText(runs)) != []
  {
    CountTextWords(runs);
    var w := Words(runs);
    var line := Join(w, [COMMA]);
    assert DropLast(CountText(runs)) == line;
    forall i | 0 <= i < |w| ensures CR !in w[i] {
      DecimalDigits(runs[i].count);
    }
    JoinNoCr(w);
    assert line != [] by {
      if |w| == 1 {
        assert line == w[0];
      } else {
        assert line == w[0] + [COMMA] + Join(w[1..], [COMMA]);
      }
    }
  }

  /** `extractor` on an artifact whose first line carries the RLE tag and whose line 2 is not empty. */
  lemma ExtractRleLines(h0: Bytes, h1: Bytes, c: Bytes, out: Bytes)
    requires NoCrlf(h0) && NoCrlf(h1) && NoCrlf(c) && IsUtf8(h0)
    requires StartsWith(h0, Ascii("RLE")) && c != []
    ensures Extracted(h0 + CRLF + h1 + CRLF + (c + CRLF + out)) == RleBranch([h0, h1, c] + Split(out, CRLF))
  {
    SplitThree(h0, h1, c + CRLF + out);
    SplitCrlf(c, out);
    assert [h0, h1] + ([c] + Split(out, CRLF)) == [h0, h1, c] + Split(out, CRLF);
  }

  /** The header `extract_head_rle` reads from the lines the encoder wrote. */
  lemma HeadOfRleLines(h0: Bytes, rs: nat, runs: seq<Run>, out: Bytes)
    requires runs != []
    ensures HeadRle([h0, Decimal(rs), DropLast(CountText(runs))] + Split(out, CRLF)) ==
            Some(RleHead(rs, Counts(runs), out))
  {
    var lines := [h0, Decimal(rs), DropLast(CountText(runs))] + Split(out, CRLF);
    DecimalNoComma(rs);
    AsciiIsUtf8(Decimal(rs));
    ParseDecimal(rs);
    CountLineParses(runs);
    assert lines[3..] == Split(out, CRLF);
    JoinSplit(out, CRLF);
  }

  /** The RLE artifact's first line and its dispatch tag. */
  lemma RleHeaderLine(ft: Bytes)
    requires NoCrlf(ft) && IsUtf8(ft)
    ensures var h0 := MethodName(RLE) + [COMMA] + ft;
            NoCrlf(h0) && IsUtf8(h0) && StartsWith(h0, Ascii("RLE"))
  {
    HeaderLine(RLE, ft);
    MethodNamesDiffer();
  }

  /**
   * An RLE artifact extracts to the file it was made from, provided the
   * repeat size divides the 1000-byte chunk, the file type keeps to one line
   * and is text, and the file's last chunk is longer than the repeat size
   * (a shorter last chunk is written verbatim with a count that loses its
   * only digit, see OneByteLost).
   */
  lemma RleRoundTrip(fileName: Bytes, data: Bytes, rs: nat)
    requires rs >= 1 && Fits(KILO, rs)
    requires data == [] || LastChunkLonger(data, rs)
    requires var ft := FileType(fileName, Extension(fileName)); NoCrlf(ft) && IsUtf8(ft)
    ensures RleArtifact(fileName, RLE, data, rs).Some?
    ensures Extracted(RleArtifact(fileName, RLE, data, rs).value) == Data(data)
  {
    var ft := FileType(fileName, Extension(fileName));
    RleArtifactNeedsRle(fileName, RLE, data, rs);
    var h0 := MethodName(RLE) + [COMMA] + ft;
    var h1 := Decimal(rs);
    RleHeaderLine(ft);
    DecimalDigits(rs);
    assert NoCrlf(h1) by {
      forall i | 0 <= i < |h1| - 1 ensures h1[i] != CR {
        assert IsDigit(h1[i]);
      }
    }
    if data == [] {
      var body := RleBody(data, rs);
      assert body == [] + CRLF + [];
      SplitThree(h0, h1, body);
      SplitHeadEmpty(body);
    } else {
      var runs := ChunkRuns(data, rs);
      RleBodyRuns(data, rs);
      ChunkRunsShape(data, rs);
      var c := DropLast(CountText(runs));
      var out := RunBytes(runs);
      CountLineOneLine(runs);
      ExtractRleLines(h0, h1, c, out);
      HeadOfRleLines(h0, rs, runs, out);
      DecodeRuns(runs, rs);
    }
  }

  /** A payload of runs with positive counts is no longer than what the runs stand for. */
  lemma {:induction false} RunBytesShorter(runs: seq<Run>)
    requires CountsInRange(runs)
    ensures |RunBytes(runs)| <= |Expand(runs)|
    decreases |runs|
  {
    if runs != [] {
      var r := runs[|runs| - 1];
      RunBytesShorter(runs[..|runs| - 1]);
      assert Repeat(r.unit, r.count) == r.unit + Repeat(r.unit, r.count - 1);
    }
  }

  /** The artifact body of one chunk: the runs' count line minus its last comma, CRLF, the runs' units. */
  lemma SingleChunkBody(data: Bytes, rs: nat)
    requires 1 <= rs < |data| <= KILO
    ensures var runs := Runs(Units(data, rs));
      runs != [] && Shaped(runs, rs) && CountsInRange(runs) && Expand(runs) == data &&
      RleBody(data, rs) == DropLast(CountText(runs)) + CRLF + RunBytes(runs)
  {
    RleKbFacts(data, rs);
    assert Slice(data, 0, KILO) == data && Drop(data, KILO) == [];
    assert RleOut(data, rs) == KbPayload(data, rs) + RleOut([], rs);
    assert RleCounts(data, rs) == KbCounts(data, rs) + RleCounts([], rs);
  }

  /** The units of one chunk's runs fit in one decoding window, which gives back what they stand for. */
  lemma SingleWindowDecodes(runs: seq<Run>, rs: nat)
    requires rs >= 1 && runs != [] && Shaped(runs, rs) && CountsInRange(runs) && |Expand(runs)| <= KILO
    ensures DecodeRle(RunBytes(runs), rs, Counts(runs)) == Expand(runs)
  {
    var out := RunBytes(runs);
    RunBytesShorter(runs);
    RunBytesNonEmpty(runs, rs);
    assert Slice(out, 0, KILO) == out && Drop(out, KILO) == [];
    WindowRuns(runs, rs, []);
    assert Counts(runs) + [] == Counts(runs);
  }

  /**
   * A file of one chunk longer than the repeat size extracts back whole, for
   * every repeat size: the short last unit is the last bytes of the only
   * decoding window, so no divisibility is needed.
   */
  lemma SingleChunkRoundTrip(fileName: Bytes, data: Bytes, rs: nat)
    requires 1 <= rs < |data| <= KILO
    requires var ft := FileType(fileName, Extension(fileName)); NoCrlf(ft) && IsUtf8(ft)
    ensures RleArtifact(fileName, RLE, data, rs).Some?
    ensures Extracted(RleArtifact(fileName, RLE, data, rs).value) == Data(data)
  {
    var ft := FileType(fileName, Extension(fileName));
    RleArtifactNeedsRle(fileName, RLE, data, rs);
    var h0 := MethodName(RLE) + [COMMA] + ft;
    var h1 := Decimal(rs);
    RleHeaderLine(ft);
    DecimalDigits(rs);
    assert NoCrlf(h1) by {
      forall i | 0 <= i < |h1| - 1 ensures h1[i] != CR {
        assert IsDigit(h1[i]);
      }
    }
    var runs := Runs(Units(data, rs));
    SingleChunkBody(data, rs);
    var out := RunBytes(runs);
    var c := DropLast(CountText(runs));
    CountLineOneLine(runs);
    ExtractRleLines(h0, h1, c, out);
    HeadOfRleLines(h0, rs, runs, out);
    SingleWindowDecodes(runs, rs);
  }

  /**
   * A one-byte file compressed with repeat size 1 extracts to nothing: the
   * chunk is written verbatim with the count `1` and no comma, and dropping
   * the count line's last byte leaves line 2 empty.
   */
  lemma OneByteLost(fileName: Bytes, x: byte)
    requires var ft := FileType(fileName, Extension(fileName)); NoCrlf(ft) && IsUtf8(ft)
    ensures RleArtifact(fileName, RLE, [x], 1).Some?
    ensures Extracted(RleArtifact(fileName, RLE, [x], 1).value) == Data([])
  {
    var ft := FileType(fileName, Extension(fileName));
    RleArtifactNeedsRle(fileName, RLE, [x], 1);
    var h0 := MethodName(RLE) + [COMMA] + ft;
    var h1 := Decimal(1);
    RleHeaderLine(ft);
    assert h1 == [49];
    assert Slice([x], 0, KILO) == [x] && Drop([x], KILO) == [];
    assert KbCounts([x], 1) == [49] && KbPayload([x], 1) == [x];
    assert RleCounts([x], 1) == [49] + [] && RleOut([x], 1) == [x] + [];
    var body := RleBody([x], 1);
    assert body == [] + CRLF + [x];
    SplitThree(h0, h1, body);
    SplitHeadEmpty(body);
  }
}
