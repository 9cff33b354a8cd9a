/**
 * The `Compressor` object: a file name and a method fixed at construction,
 * and the efficiency and size fields its compress operations update.  The
 * file's contents are passed to each operation, which stands for reading the
 * file at that moment.
 */
module Compress {
  import opened Bytes
  import opened TreeNode
  import opened Huffman
  import opened Packing
  import opened Rle

  datatype Method = RLE | HUF

  function MethodName(m: Method): (r: Bytes)
    ensures |r| == 3 && IsAscii(r) && COMMA !in r
  {
    match m
    case RLE => Ascii("RLE")
    case HUF => Ascii("HUF")
  }

  /**
   * The checks of `__init__`: the name must not end with '.', the file must
   * exist and be readable, and the method must be `RLE` or `HUF`; `None`
   * where the constructor raises.
   */
  function CheckInit(fileName: Bytes, compressionMethod: Bytes, readable: bool): (r: Option<Method>)
    ensures r.Some? <==>
              fileName != [] && Last(fileName) != DOT && readable &&
              (compressionMethod == MethodName(RLE) || compressionMethod == MethodName(HUF))
    ensures r.Some? ==> MethodName(r.value) == compressionMethod
  {
    if fileName == [] || Last(fileName) == DOT || !readable then None
    else if compressionMethod == MethodName(RLE) then Some(RLE)
    else if compressionMethod == MethodName(HUF) then Some(HUF)
    else None
  }

  /** `name.split("/")[-1]`: the last path component. */
  function BaseName(path: Bytes): (r: Bytes)
    ensures SLASH !in r
  {
    SplitPartsFree(path, SLASH);
    Last(Split(path, [SLASH]))
  }

  /** `name.split(".")[-1]`: what follows the last dot, or the whole name. */
  function Extension(path: Bytes): (r: Bytes)
    ensures DOT !in r
  {
    SplitPartsFree(path, DOT);
    Last(Split(path, [DOT]))
  }

  /** The type `compress_format` writes: `txt` when the base name has no dot. */
  function FileType(fileName: Bytes, fileType: Bytes): (r: Bytes)
    ensures DOT in BaseName(fileName) ==> r == fileType
    ensures DOT !in BaseName(fileName) ==> r == Ascii("txt")
  {
    FindByte(BaseName(fileName), DOT);
    if Find(BaseName(fileName), [DOT]) == -1 then Ascii("txt") else fileType
  }

  /** `find` of a one-byte separator fails exactly when the byte is absent. */
  lemma FindByte(s: Bytes, c: byte)
    ensures Find(s, [c]) == -1 <==> c !in s
  {
    var r := Find(s, [c]);
    if r >= 0 {
      assert s[r..r + 1] == [c];
      assert s[r] == c;
    }
    if c in s {
      var j :| 0 <= j < |s| && s[j] == c;
      assert s[j..j + 1] == [c];
      assert OccursAt(s, [c], j);
    }
  }

  /** The tree written to a HUF header: a lone leaf is first wrapped in a node of its weight with that leaf on both sides. */
  function HeadTree(t: Tree): (r: Tree)
    ensures r.Node?
    ensures t.Node? ==> r == t
    ensures t.Leaf? ==> r.left == t && r.right == t && r.weight == t.weight
  {
    if t.Leaf? then Node(t.weight, t, t) else t
  }

  /**
   * `compress_format`: the header lines of an artifact.  RLE writes
   * `RLE,<type>` and the repeat size; HUF writes `HUF,<type>` and the
   * serialised tree, and raises when no tree is given.
   */
  function CompressFormat(fileName: Bytes, m: Method, fileType: Bytes, repeatSize: int, treeNode: Option<Tree>): (r: Option<Bytes>)
    ensures r.None? <==> m == HUF && treeNode.None?
  {
    var ft := FileType(fileName, fileType);
    match m
    case RLE => Some(MethodName(RLE) + [COMMA] + ft + CRLF + Decimal(repeatSize) + CRLF)
    case HUF =>
      if treeNode.None? then None
      else Some(MethodName(HUF) + [COMMA] + ft + CRLF + TreeStr(HeadTree(treeNode.value), []) + CRLF)
  }

  /** The HUF header holds the serialisation of the header tree, as its own line. */
  lemma CompressFormatHuf(fileName: Bytes, fileType: Bytes, repeatSize: int, t: Tree)
    ensures CompressFormat(fileName, HUF, fileType, repeatSize, Some(t)) ==
            Some(MethodName(HUF) + [COMMA] + FileType(fileName, fileType) + CRLF + Serial(HeadTree(t)) + CRLF)
  {
    TreeStrAppends(HeadTree(t), []);
    assert [] + Serial(HeadTree(t)) == Serial(HeadTree(t));
  }

  /** What `compress_rle` writes after the header: the count line without its last byte, CRLF, and the payload. */
  function RleBody(data: Bytes, rs: int): Bytes
    requires rs >= 1 || data == []
  {
    DropLast(RleCounts(data, rs)) + CRLF + RleOut(data, rs)
  }

  /** The artifact `compress_rle` returns, `None` where it raises. */
  function RleArtifact(fileName: Bytes, m: Method, data: Bytes, rs: int): Option<Bytes>
    requires rs >= 1 || data == []
  {
    match CompressFormat(fileName, m, Extension(fileName), rs, None)
    case None => None
    case Some(head) => if m == RLE then Some(head + RleBody(data, rs)) else Some(head)
  }

  /** The packed codes `compress_huf` writes after its header, for non-empty data. */
  function HufPayload(data: Bytes): Bytes
    requires data != []
  {
    HufRootFacts(data);
    RootCoversData(data);
    HufData(data, FinalMap(HufRoot(data).value))
  }

  /** The artifact `compress_huf` returns, `None` where it raises (an empty file leaves no tree). */
  function HufArtifact(fileName: Bytes, m: Method, data: Bytes): Option<Bytes>
  {
    HufRootFacts(data);
    match HufRoot(data)
    case None => None
    case Some(root) => Some(CompressFormat(fileName, m, Extension(fileName), 1, Some(root)).value + HufPayload(data))
  }

  /** `compress_rle` on an object made for HUF raises: its header needs a tree. */
  lemma RleArtifactNeedsRle(fileName: Bytes, m: Method, data: Bytes, rs: int)
    requires rs >= 1 || data == []
    ensures RleArtifact(fileName, m, data, rs).Some? <==> m == RLE
    ensures m == RLE ==>
              RleArtifact(fileName, m, data, rs) == Some(MethodName(RLE) + [COMMA] + FileType(fileName, Extension(fileName)) + CRLF + Decimal(rs) + CRLF + RleBody(data, rs))
  {
  }

  /**
   * The HUF artifact exists exactly for non-empty data, and then is the
   * header line, the serialised header tree, and the packed codes of the
   * final map.
   */
  lemma HufArtifactShape(fileName: Bytes, data: Bytes)
    ensures HufArtifact(fileName, HUF, data).Some? <==> data != []
    ensures data != [] ==>
              HufArtifact(fileName, HUF, data) ==
              Some(MethodName(HUF) + [COMMA] + FileType(fileName, Extension(fileName)) + CRLF +
                   Serial(HeadTree(HufRoot(data).value)) + CRLF + HufPayload(data))
  {
    HufRootFacts(data);
    if data != [] {
      CompressFormatHuf(fileName, Extension(fileName), 1, HufRoot(data).value);
    }
  }

  /** `split(".")[0]` of the base name: what precedes its first dot. */
  function Stem(fileName: Bytes): (r: Bytes)
    ensures DOT !in r && SLASH !in r
    ensures |r| <= |BaseName(fileName)| && r == BaseName(fileName)[..|r|]
    ensures |r| == |BaseName(fileName)| || BaseName(fileName)[|r|] == DOT
  {
    var b := BaseName(fileName);
    SplitPartsFree(b, DOT);
    SplitHeadIn(b, DOT);
    var k := Find(b, [DOT]);
    assert k >= 0 ==> Split(b, [DOT])[0] == b[..k] && b[k] == b[k..k + 1][0];
    Split(b, [DOT])[0]
  }

  /** The first piece of a split is a prefix of the string. */
  lemma SplitHeadIn(s: Bytes, c: byte)
    ensures forall x :: x in Split(s, [c])[0] ==> x in s
  {
    var k := Find(s, [c]);
    if k >= 0 {
      assert Split(s, [c])[0] == s[..k];
    }
  }

  class Compressor {
    const fileName: Bytes
    const compressionMethod: Method
    var compressionEfficiency: int
    var size: int

    /** The object `__init__` builds once its checks have passed: efficiency and size start at zero. */
    constructor (fileName: Bytes, compressionMethod: Method)
      ensures this.fileName == fileName && this.compressionMethod == compressionMethod
      ensures compressionEfficiency == 0 && size == 0
    {
      this.fileName := fileName;
      this.compressionMethod := compressionMethod;
      compressionEfficiency := 0;
      size := 0;
    }

    /**
     * `is_positive_compress`: records the efficiency, original size minus
     * compressed size (negative when the artifact is larger), and tells
     * whether the artifact is smaller.
     */
    method IsPositiveCompress(compressedBytes: Bytes, originalSize: nat) returns (positive: bool)
      modifies this
      ensures compressionEfficiency == originalSize - |compressedBytes|
      ensures positive <==> |compressedBytes| < originalSize
      ensures size == old(size)
    {
      var compressSize := |compressedBytes|;
      compressionEfficiency := originalSize - compressSize;
      positive := originalSize > compressSize;
    }

    /**
     * `compress_rle`: the header, then for an RLE object the count line of
     * all chunks without its last byte, CRLF and the payload; the efficiency
     * and the size of the artifact are recorded.
     */
    method CompressRle(fileData: Bytes, repeatSize: int) returns (r: Option<Bytes>)
      requires repeatSize >= 1 || fileData == []
      modifies this
      ensures r == RleArtifact(fileName, compressionMethod, fileData, repeatSize)
      ensures r.Some? ==> size == |r.value| && compressionEfficiency == |fileData| - |r.value|
      ensures r.None? ==> size == old(size) && compressionEfficiency == old(compressionEfficiency)
    {
      var originalFileData := fileData;
      var head := CompressFormat(fileName, compressionMethod, Extension(fileName), repeatSize, None);
      if head.None? {
        return None;
      }
      var compressedBytes := head.value;
      if compressionMethod == RLE {
        var body, sizes := CompressRleChunks(originalFileData, repeatSize);
        compressedBytes := compressedBytes + (DropLast(sizes) + CRLF);
        compressedBytes := compressedBytes + body;
        Regroup(head.value, DropLast(sizes) + CRLF, body);
      }
      var _ := IsPositiveCompress(compressedBytes, |fileData|);
      size := |compressedBytes|;
      r := Some(compressedBytes);
    }

    /**
     * `compress_huf`: builds the tree and the map (a single entry gets the
     * code `1`), writes the header and the packed codes, and records the
     * efficiency and the size.
     */
    method CompressHuf(fileData: Bytes) returns (r: Option<Bytes>)
      modifies this
      ensures r == HufArtifact(fileName, compressionMethod, fileData)
      ensures r.Some? ==> size == |r.value| && compressionEfficiency == |fileData| - |r.value|
      ensures r.None? ==> size == old(size) && compressionEfficiency == old(compressionEfficiency)
    {
      var originalFileData := fileData;
      var hufTree := CreateHufTree(originalFileData);
      if hufTree.None? {
        return None;
      }
      var hufMap := CreateHufMap(hufTree.value, map[], []);
      if |hufMap| == 1 {
        hufMap := map b | b in hufMap :: [true];
      }
      var head := CompressFormat(fileName, compressionMethod, Extension(fileName), 1, hufTree);
      RootCoversData(fileData);
      var packed := CreateHufData(originalFileData, hufMap);
      var compressedBytes := head.value + packed;
      var _ := IsPositiveCompress(compressedBytes, |fileData|);
      size := |compressedBytes|;
      r := Some(compressedBytes);
    }

    /** `file_name_and_type`: `/<stem>_<method>.txt`, the stem being the base name up to its first dot. */
    function FileNameAndType(): (r: Bytes)
      ensures |r| >= 9 && r[0] == SLASH && r[|r| - 8..] == Ascii("_") + MethodName(compressionMethod) + Ascii(".txt")
      ensures var b := BaseName(fileName); var n := |r| - 9;
        n <= |b| && r[1..n + 1] == b[..n] && DOT !in r[1..n + 1] && (n == |b| || b[n] == DOT)
    {
      var stem := Stem(fileName);
      var r := [SLASH] + stem + Ascii("_") + MethodName(compressionMethod) + Ascii(".txt");
      var tail := Ascii("_") + MethodName(compressionMethod) + Ascii(".txt");
      assert |tail| == 8 && r == [SLASH] + stem + tail;
      assert r[|r| - 8..] == tail;
      assert r[1..|stem| + 1] == stem;
      r
    }
  }
}
