/**
 * The extractor: the tree reader of a HUF header, the bit-by-bit decoder of
 * its payload, and `extractor`, which splits an artifact into CRLF lines and
 * dispatches on the method tag of the first line.
 */
module Extract {
  import opened Bytes
  import opened TreeNode
  import opened Huffman
  import opened Packing
  import opened RleExtract

  /* ---------------------------------------------------------------------- */
  /* Reading the tree                                                        */

  /** A lone `l` token is what is left of a leaf for ','; it is restored to `,l`. */
  function Fix(x: Bytes): Bytes
  {
    if x == [LOWER_L] then [COMMA, LOWER_L] else x
  }

  /** What one token becomes: empty tokens are dropped. */
  function Keep(x: Bytes): seq<Bytes>
  {
    if x == [] then [] else [Fix(x)]
  }

  /** The token list after the loop of `extract_huf_tree`. */
  function Norm(toks: seq<Bytes>): seq<Bytes>
  {
    if toks == [] then [] else Norm(toks[..|toks| - 1]) + Keep(toks[|toks| - 1])
  }

  lemma {:induction false} NormAppend(a: seq<Bytes>, b: seq<Bytes>)
    ensures Norm(a + b) == Norm(a) + Norm(b)
    decreases |b|
  {
    if b == [] {
      assert a + b == a;
    } else {
      assert (a + b)[..|a + b| - 1] == a + b[..|b| - 1];
      NormAppend(a, b[..|b| - 1]);
    }
  }

  /** No token of the result is empty, and none is a lone `l`. */
  lemma {:induction false} NormClean(toks: seq<Bytes>)
    ensures forall i :: 0 <= i < |Norm(toks)| ==> Norm(toks)[i] != [] && Norm(toks)[i] != [LOWER_L]
    ensures |Norm(toks)| <= |toks|
  {
    if toks != [] {
      NormClean(toks[..|toks| - 1]);
    }
  }

  /** One turn of the loop, on the list as it stands: `lst` is the tokens done so far followed by the rest of the input. */
  lemma NormStep(orig: seq<Bytes>, k: nat, lst: seq<Bytes>, i: nat)
    requires k < |orig| && lst == Norm(orig[..k]) + orig[k..] && i == |Norm(orig[..k])|
    ensures i < |lst| && lst[i] == orig[k]
    ensures orig[k] == [] ==>
              lst[..i] + lst[i + 1..] == Norm(orig[..k + 1]) + orig[k + 1..] && i == |Norm(orig[..k + 1])|
    ensures orig[k] == [LOWER_L] ==>
              lst[i := [COMMA, LOWER_L]] == Norm(orig[..k + 1]) + orig[k + 1..] && i + 1 == |Norm(orig[..k + 1])|
    ensures orig[k] != [] && orig[k] != [LOWER_L] ==>
              lst == Norm(orig[..k + 1]) + orig[k + 1..] && i + 1 == |Norm(orig[..k + 1])|
  {
    assert orig[..k + 1][..k] == orig[..k];
    assert orig[k..] == [orig[k]] + orig[k + 1..];
    var n := Norm(orig[..k]);
    assert Norm(orig[..k + 1]) == n + Keep(orig[k]);
    Regroup(n, Keep(orig[k]), orig[k + 1..]);
  }

  /**
   * The loop of `extract_huf_tree`: a token `l` is replaced by `,l` and an
   * empty token is deleted in place, the index stepping back over it.
   */
  method NormalizeTokens(nodes: seq<Bytes>) returns (lst: seq<Bytes>)
    ensures lst == Norm(nodes)
  {
    lst := nodes;
    var i: int := 0;
    ghost var k: nat := 0;
    while i < |lst|
      invariant 0 <= i && k <= |nodes|
      invariant lst == Norm(nodes[..k]) + nodes[k..] && i == |Norm(nodes[..k])|
      decreases |nodes| - k
    {
      NormStep(nodes, k, lst, i);
      if lst[i] == [LOWER_L] {
        lst := lst[i := [COMMA, LOWER_L]];
      }
      if lst[i] == [] {
        lst := lst[..i] + lst[i + 1..];
        i := i - 1;
      }
      i := i + 1;
      k := k + 1;
    }
    assert nodes[..k] == nodes;
    assert lst == Norm(nodes) + [];
  }

  /** A subtree read off the front of a token list, and the tokens after it. */
  datatype Parsed = Parsed(tree: ReadTree, rest: seq<Bytes>)

  /**
   * `recursive_extract_huf_tree`: a token whose second byte is `l` is a leaf
   * holding its first byte; any other token is an internal node, followed by
   * its left and then its right subtree.  Running out of tokens raises
   * (`None`).
   */
  function RecursiveExtract(toks: seq<Bytes>): (r: Option<Parsed>)
    ensures r.Some? ==> |r.value.rest| < |toks| && r.value.rest == toks[|toks| - |r.value.rest|..]
    decreases |toks|
  {
    if toks == [] then None
    else
      var data := toks[0];
      var rest := toks[1..];
      if |data| > 1 && data[1] == LOWER_L then Some(Parsed(RLeaf(data[..1]), rest))
      else
        match RecursiveExtract(rest)
        case None => None
        case Some(l) =>
          match RecursiveExtract(l.rest)
          case None => None
          case Some(rt) => Some(Parsed(RNode(data, l.tree, rt.tree), rt.rest))
  }

  /** `extract_huf_tree`: the tree read from the header line, whatever tokens follow it. */
  function HufTreeOf(header: Bytes): Option<ReadTree>
  {
    match RecursiveExtract(Norm(Split(header, [COMMA])))
    case None => None
    case Some(p) => Some(p.tree)
  }

  method ExtractHufTree(header: Bytes) returns (root: Option<ReadTree>)
    ensures root == HufTreeOf(header)
  {
    var nodesLst := Split(header, [COMMA]);
    nodesLst := NormalizeTokens(nodesLst);
    var parsed := RecursiveExtract(nodesLst);
    if parsed.None? {
      return None;
    }
    root := Some(parsed.value.tree);
  }

  /* ---------------------------------------------------------------------- */
  /* Decoding the bits                                                       */

  /** `bits_str_from_bytes`: eight bits per byte, most significant first. */
  function BitsFromBytes(data: Bytes): (r: Bits)
    ensures |r| == 8 * |data|
  {
    if data == [] then [] else BitsFromBytes(data[..|data| - 1]) + BitsOf(data[|data| - 1], 8)
  }

  /** `bits[:-k]`: the last `k` bits dropped, and nothing left at all for `k == 0` (a negative `k` keeps the first `-k`). */
  function TrimBits(bits: Bits, k: int): (r: Bits)
    ensures k == 0 ==> r == []
    ensures 0 < k <= |bits| ==> r == bits[..|bits| - k]
    ensures k > |bits| ==> r == []
  {
    if k <= 0 then bits[..if -k < |bits| then -k else |bits|]
    else if k >= |bits| then [] else bits[..|bits| - k]
  }

  /** A byte read off the tree, and the bits after its path. */
  datatype Step = Step(rest: Bits, sym: Bytes)

  /**
   * `read_data_from_tree`: from an internal node, `0` goes left and `1` goes
   * right, one bit per edge, until a leaf yields its byte.  Running out of
   * bits at an internal node raises (`None`).
   */
  function ReadDataFromTree(bits: Bits, t: ReadTree): (r: Option<Step>)
    ensures r.Some? ==> |r.value.rest| <= |bits| && r.value.rest == bits[|bits| - |r.value.rest|..]
    ensures r.Some? && t.RNode? ==> |r.value.rest| < |bits|
    ensures r.Some? && t.RLeaf? ==> r.value == Step(bits, t.data)
  {
    match t
    case RLeaf(d) => Some(Step(bits, d))
    case RNode(_, l, rt) =>
      if bits == [] then None
      else if !bits[0] then ReadDataFromTree(bits[1..], l)
      else ReadDataFromTree(bits[1..], rt)
  }

  /** How the decoding loop of `extract_data_huf` ends. */
  datatype Decoded = Decoded(out: Bytes) | Fails | Loops

  /** `out` put in front of what the rest of the loop produces. */
  function Then(out: Bytes, d: Decoded): Decoded
  {
    match d
    case Decoded(o) => Decoded(out + o)
    case Fails => Fails
    case Loops => Loops
  }

  /**
   * The decoding loop: bytes are read off the tree until no bits remain.  A
   * read that consumes nothing (the root is a leaf) leaves the loop's state
   * as it was, so the loop never ends.
   */
  function DecodeAll(bits: Bits, t: ReadTree): Decoded
    decreases |bits|
  {
    if bits == [] then Decoded([])
    else match ReadDataFromTree(bits, t)
      case None => Fails
      case Some(s) => if s.rest == bits then Loops else Then(s.sym, DecodeAll(s.rest, t))
  }

  /**
   * `extract_data_huf`: the last byte is the number of padding bits; the
   * other bytes are unpacked, that many bits are dropped, and the remaining
   * bits are decoded.
   */
  function DecodeHuf(data: Bytes, root: ReadTree): Decoded
  {
    if data == [] then Fails
    else
      var last := [data[|data| - 1]];
      if !IsUtf8(last) then Fails
      else match ParseInt(last)
        case None => Fails
        case Some(k) => DecodeAll(TrimBits(BitsFromBytes(data[..|data| - 1]), k), root)
  }

  lemma ThenAppend(a: Bytes, b: Bytes, d: Decoded)
    ensures Then(a + b, d) == Then(a, Then(b, d))
  {
    if d.Decoded? {
      Regroup(a, b, d.out);
    }
  }

  method ExtractDataHuf(data: Bytes, headNode: ReadTree) returns (r: Decoded)
    ensures r == DecodeHuf(data, headNode)
  {
    if |data| == 0 {
      return Fails;
    }
    var lastByte := [data[|data| - 1]];
    if !IsUtf8(lastByte) {
      return Fails;
    }
    var restBits := ParseInt(lastByte);
    if restBits.None? {
      return Fails;
    }
    var bitsStr := BitsFromBytes(data[..|data| - 1]);
    bitsStr := TrimBits(bitsStr, restBits.value);
    ghost var bits0 := bitsStr;
    var originalData := [];
    while bitsStr != []
      invariant Then(originalData, DecodeAll(bitsStr, headNode)) == DecodeAll(bits0, headNode)
      decreases |bitsStr|
    {
      var step := ReadDataFromTree(bitsStr, headNode);
      if step.None? {
        return Fails;
      }
      if step.value.rest == bitsStr {
        // the next turn would start from the very same state
        return Loops;
      }
      ThenAppend(originalData, step.value.sym, DecodeAll(step.value.rest, headNode));
      bitsStr := step.value.rest;
      originalData := originalData + step.value.sym;
    }
    assert originalData + [] == originalData;
    r := Decoded(originalData);
  }

  /* ---------------------------------------------------------------------- */
  /* Dispatch                                                                */

  /**
   * What `extractor` ends with: the extracted bytes, an error message it
   * returns (for a caught HUF exception only its fixed prefix), an exception
   * it lets escape, or a loop that never ends.
   */
  datatype Outcome = Data(bytes: Bytes) | Message(text: Bytes) | Raises | Hangs

  const NOT_COMPRESSED: Bytes := Ascii("file is not in a compressed format")
  const NOT_COMPRESSED_CAUSE: Bytes := Ascii("file is not in a compressed format: ")
  const WRONG_REPEAT: Bytes := Ascii("wrong repeat size")

  predicate StartsWith(s: Bytes, p: Bytes)
  {
    |p| <= |s| && s[..|p|] == p
  }

  /** The RLE branch, past the check of line 2. */
  function RleBranch(lines: seq<Bytes>): Outcome
  {
    match HeadRle(lines)
    case None => Message(NOT_COMPRESSED)
    case Some(h) =>
      if h.repeatSize < 1 then Message(WRONG_REPEAT)
      else Data(DecodeRle(h.data, h.repeatSize, h.sizes))
  }

  /** The HUF branch, past the check of line 2: every exception becomes a message. */
  function HufBranch(lines: seq<Bytes>): Outcome
    requires |lines| >= 3
  {
    match HufTreeOf(lines[1])
    case None => Message(NOT_COMPRESSED_CAUSE)
    case Some(root) =>
      match DecodeHuf(Join(lines[2..], CRLF), root)
      case Decoded(o) => Data(o)
      case Fails => Message(NOT_COMPRESSED_CAUSE)
      case Loops => Hangs
  }

  /**
   * `extractor`: fewer than two CRLF lines is an error; line 0 must decode
   * (otherwise the exception escapes); an `RLE` or `HUF` tag needs a line 2
   * (otherwise indexing it raises), and an empty line 2 extracts to nothing;
   * any other tag extracts to nothing as well.
   */
  function Extracted(compressed: Bytes): Outcome
  {
    var lines := Split(compressed, CRLF);
    if |lines| < 2 then Message(NOT_COMPRESSED)
    else if !IsUtf8(lines[0]) then Raises
    else if StartsWith(lines[0], Ascii("RLE")) then
      if |lines| < 3 then Raises
      else if lines[2] == [] then Data([])
      else RleBranch(lines)
    else if StartsWith(lines[0], Ascii("HUF")) then
      if |lines| < 3 then Raises
      else if lines[2] == [] then Data([])
      else HufBranch(lines)
    else Data([])
  }

  method Extractor(compressedData: Bytes) returns (r: Outcome)
    ensures r == Extracted(compressedData)
  {
    var dataLines := Split(compressedData, CRLF);
    if |dataLines| < 2 {
      return Message(NOT_COMPRESSED);
    }
    if !IsUtf8(dataLines[0]) {
      return Raises;
    }
    var extractMethod := dataLines[0];
    if StartsWith(extractMethod, Ascii("RLE")) {
      if |dataLines| < 3 {
        return Raises;
      }
      if dataLines[2] == [] {
        return Data([]);
      }
      var head := ExtractHeadRle(dataLines);
      if head.None? {
        return Message(NOT_COMPRESSED);
      }
      if head.value.repeatSize < 1 {
        return Message(WRONG_REPEAT);
      }
      var originalData := ExtractRleData(head.value.data, head.value.repeatSize, head.value.sizes);
      r := Data(originalData);
    } else if StartsWith(extractMethod, Ascii("HUF")) {
      if |dataLines| < 3 {
        return Raises;
      }
      if dataLines[2] == [] {
        return Data([]);
      }
      var headNode := ExtractHufTree(dataLines[1]);
      if headNode.None? {
        return Message(NOT_COMPRESSED_CAUSE);
      }
      var decoded := ExtractDataHuf(Join(dataLines[2..], CRLF), headNode.value);
      match decoded
      case Decoded(o) => r := Data(o);
      case Fails => r := Message(NOT_COMPRESSED_CAUSE);
      case Loops => r := Hangs;
    } else {
      r := Data([]);
    }
  }
}
