/**
 * Compressing a folder: every file of a folder is compressed on its own and
 * the artifacts are concatenated; a header line `path[name,size,...]` lists
 * the files and their artifact sizes, files first and then each subfolder's
 * own header.  The file system is a snapshot: a folder is the list of
 * entries `os.listdir` returns, in that order.
 */
module Folder {
  import opened Bytes
  import opened Compress

  /** A directory entry: a file with its contents, or a subfolder with its entries. */
  datatype Entry = File(name: Bytes, contents: Bytes) | Dir(name: Bytes, entries: seq<Entry>)

  /** What a compression of some files yields: the listing items, the artifacts, and the summed efficiency. */
  datatype Pack = Pack(items: seq<Bytes>, data: Bytes, efficiency: int)

  /** A header, the payload it describes, and the summed efficiency. */
  datatype Packed = Packed(header: Bytes, data: Bytes, efficiency: int)

  /** HUF leaves out files larger than this many bytes. */
  const HUF_LIMIT: nat := 3000000

  /** The text of the `FileNotFoundError` the constructor raises for a name ending in '.', in parentheses. */
  const NOT_FOUND: Bytes := Ascii("(the file path doesnt exists)")
  const MINUS_ONE: Bytes := Ascii("-1")

  function Merge(p: Pack, q: Pack): Pack
  {
    Pack(p.items + q.items, p.data + q.data, p.efficiency + q.efficiency)
  }

  function MergeAll(p: Packed, q: Packed): Packed
  {
    Packed(p.header + q.header, p.data + q.data, p.efficiency + q.efficiency)
  }

  lemma MergeAssoc(p: Pack, q: Pack, r: Pack)
    ensures Merge(Merge(p, q), r) == Merge(p, Merge(q, r))
  {
    Regroup(p.items, q.items, r.items);
    Regroup(p.data, q.data, r.data);
  }

  lemma MergeAllAssoc(p: Packed, q: Packed, r: Packed)
    ensures MergeAll(MergeAll(p, q), r) == MergeAll(p, MergeAll(q, r))
  {
    Regroup(p.header, q.header, r.header);
    Regroup(p.data, q.data, r.data);
  }

  /* ---------------------------------------------------------------------- */
  /* line_of_files_in_folder                                                 */

  /** `line_of_files_in_folder`: the folder path, '[', then every item followed by a comma. */
  method LineOfFilesInFolder(folderPath: Bytes, folderContent: seq<Bytes>) returns (line: Bytes)
    ensures line == folderPath + [OPEN] + Text(folderContent)
  {
    line := folderPath + [OPEN];
    for i := 0 to |folderContent|
      invariant line == folderPath + [OPEN] + Text(folderContent[..i])
    {
      TextAppend(folderContent[..i], [folderContent[i]]);
      assert folderContent[..i + 1] == folderContent[..i] + [folderContent[i]];
      assert Text([folderContent[i]]) == folderContent[i] + [COMMA] + [];
      Regroup(folderPath + [OPEN], Text(folderContent[..i]), folderContent[i] + [COMMA]);
      line := line + (folderContent[i] + [COMMA]);
    }
    assert folderContent[..|folderContent|] == folderContent;
  }

  /* ---------------------------------------------------------------------- */
  /* compress_folder_only_files                                              */

  predicate AllFiles(es: seq<Entry>)
  {
    forall i :: 0 <= i < |es| ==> es[i].File?
  }

  /** The files of a listing, in order. */
  function FilesOf(es: seq<Entry>): (r: seq<Entry>)
    ensures AllFiles(r) && |r| <= |es|
    ensures AllFiles(es) ==> r == es
  {
    if es == [] then []
    else
      var front := FilesOf(es[..|es| - 1]);
      assert AllFiles(es) ==> AllFiles(es[..|es| - 1]);
      assert AllFiles(es) ==> es == es[..|es| - 1] + [es[|es| - 1]];
      if es[|es| - 1].File? then front + [es[|es| - 1]] else front
  }

  /** The files HUF compresses: neither empty nor larger than the limit. */
  predicate HufKeeps(f: Entry)
    requires f.File?
  {
    0 < |f.contents| <= HUF_LIMIT
  }

  /** The filter `compress_folder_only_files` applies for HUF, keeping the order. */
  function HufKept(fs: seq<Entry>): (r: seq<Entry>)
    requires AllFiles(fs)
    ensures AllFiles(r) && |r| <= |fs|
    ensures forall i :: 0 <= i < |r| ==> HufKeeps(r[i])
  {
    if fs == [] then []
    else
      var front := HufKept(fs[..|fs| - 1]);
      if HufKeeps(fs[|fs| - 1]) then front + [fs[|fs| - 1]] else front
  }

  /** The files of a folder that get compressed. */
  function Chosen(es: seq<Entry>, m: Method): (r: seq<Entry>)
    ensures AllFiles(r)
    ensures m == HUF ==> forall i :: 0 <= i < |r| ==> r[i].contents != []
  {
    if m == HUF then HufKept(FilesOf(es)) else FilesOf(es)
  }

  /**
   * The artifact the compressor writes for one file.  HUF is never given an
   * empty file (the filter leaves those out), which would have no artifact.
   */
  function FileArtifact(fileName: Bytes, m: Method, contents: Bytes, rs: int): Bytes
    requires rs >= 1
  {
    match (if m == RLE then RleArtifact(fileName, RLE, contents, rs) else HufArtifact(fileName, HUF, contents))
    case Some(a) => a
    case None => []
  }

  /** The path the compressor is given for a file of the folder. */
  function FullName(folderPath: Bytes, f: Entry): Bytes
  {
    folderPath + [SLASH] + BaseName(f.name)
  }

  /** The artifacts of the files of a listing, in order. */
  function Artifacts(folderPath: Bytes, fs: seq<Entry>, m: Method, rs: int): (r: seq<Bytes>)
    requires AllFiles(fs) && rs >= 1
    ensures |r| == |fs|
  {
    seq(|fs|, j requires 0 <= j < |fs| => FileArtifact(FullName(folderPath, fs[j]), m, fs[j].contents, rs))
  }

  /**
   * `arts` holds the artifact of each file of `fs`.  The artifacts are only
   * looked at where one is computed, so the quantifier waits for that.
   */
  ghost predicate ArtifactsOf(folderPath: Bytes, fs: seq<Entry>, m: Method, rs: int, arts: seq<Bytes>)
    requires AllFiles(fs) && rs >= 1
  {
    |arts| == |fs| &&
    forall j {:trigger FileArtifact(FullName(folderPath, fs[j]), m, fs[j].contents, rs)} ::
      0 <= j < |fs| ==> arts[j] == FileArtifact(FullName(folderPath, fs[j]), m, fs[j].contents, rs)
  }

  lemma ArtifactsAre(folderPath: Bytes, fs: seq<Entry>, m: Method, rs: int)
    requires AllFiles(fs) && rs >= 1
    ensures ArtifactsOf(folderPath, fs, m, rs, Artifacts(folderPath, fs, m, rs))
  {
  }

  /** A compressed file's share of the result: its base name and artifact size, the artifact, and the size saved. */
  function Share(f: Entry, a: Bytes): Pack
    requires f.File?
  {
    Pack([BaseName(f.name), Decimal(|a|)], a, |f.contents| - |a|)
  }

  /** The share of a file whose constructor raises: its name with the error, and `-1`. */
  function Failure(f: Entry): Pack
  {
    Pack([BaseName(f.name) + NOT_FOUND, MINUS_ONE], [], 0)
  }

  /**
   * The loop of `compress_folder_only_files` over the chosen files, from the
   * `i`-th on, each with its artifact: each file adds its base name and its
   * artifact's size to the listing and its artifact to the payload; a name
   * ending in '.' makes the constructor raise, which adds the name with the
   * error and `-1` and ends the loop.
   */
  function FilesPack(folderPath: Bytes, fs: seq<Entry>, arts: seq<Bytes>, i: nat): Pack
    requires AllFiles(fs) && |arts| == |fs| && i <= |fs|
    decreases |fs| - i
  {
    if i == |fs| then Pack([], [], 0)
    else if Last(FullName(folderPath, fs[i])) == DOT then Failure(fs[i])
    else Merge(Share(fs[i], arts[i]), FilesPack(folderPath, fs, arts, i + 1))
  }

  /** What `compress_folder_only_files` returns. */
  function OnlyFiles(folderPath: Bytes, es: seq<Entry>, m: Method, rs: int): Packed
    requires rs >= 1
  {
    var fs := Chosen(es, m);
    var p := FilesPack(folderPath, fs, Artifacts(folderPath, fs, m, rs), 0);
    Packed(folderPath + [OPEN] + Text(p.items), p.data, p.efficiency)
  }

  /** The filtering loop of `compress_folder_only_files` for HUF. */
  method KeepForHuf(onlyFiles: seq<Entry>) returns (helper: seq<Entry>)
    requires AllFiles(onlyFiles)
    ensures helper == HufKept(onlyFiles)
  {
    helper := [];
    for i := 0 to |onlyFiles|
      invariant helper == HufKept(onlyFiles[..i])
    {
      assert onlyFiles[..i + 1][..i] == onlyFiles[..i];
      var f := onlyFiles[i];
      if |f.contents| > HUF_LIMIT {
        continue;
      }
      if |f.contents| == 0 {
        continue;
      }
      helper := helper + [f];
    }
    assert onlyFiles[..|onlyFiles|] == onlyFiles;
  }

  /** One file compressed by a fresh `Compressor`: the artifact, the size it records and the efficiency. */
  method CompressOne(full: Bytes, m: Method, contents: Bytes, rs: int) returns (a: Bytes, size: int, efficiency: int)
    requires rs >= 1
    requires m == HUF ==> contents != []
    ensures a == FileArtifact(full, m, contents, rs)
    ensures size == |a| && efficiency == |contents| - |a|
  {
    var comp := new Compressor(full, m);
    if m == RLE {
      var out := comp.CompressRle(contents, rs);
      RleArtifactNeedsRle(full, RLE, contents, rs);
      a := out.value;
    } else {
      var out := comp.CompressHuf(contents);
      HufArtifactShape(full, contents);
      a := out.value;
    }
    size := comp.size;
    efficiency := comp.compressionEfficiency;
  }

  /** The `i`-th file of the folder compressed: its artifact is the one `arts` holds. */
  method CompressAt(folderPath: Bytes, fs: seq<Entry>, i: nat, full: Bytes, m: Method, rs: int, ghost arts: seq<Bytes>)
    returns (a: Bytes, size: int, efficiency: int)
    requires AllFiles(fs) && rs >= 1 && i < |fs| && full == FullName(folderPath, fs[i])
    requires m == HUF ==> fs[i].contents != []
    requires ArtifactsOf(folderPath, fs, m, rs, arts)
    ensures a == arts[i] && size == |a| && efficiency == |fs[i].contents| - |a|
  {
    a, size, efficiency := CompressOne(full, m, fs[i].contents, rs);
  }

  /** What the loop over the files has gathered before the `i`-th file, followed by the rest, is the whole. */
  ghost predicate PackedUpTo(folderPath: Bytes, fs: seq<Entry>, arts: seq<Bytes>, acc: Pack, i: nat)
    requires AllFiles(fs) && |arts| == |fs| && i <= |fs|
  {
    Merge(acc, FilesPack(folderPath, fs, arts, i)) == FilesPack(folderPath, fs, arts, 0)
  }

  /** A file whose name ends in '.' ends the loop with its failure share. */
  lemma PackFailed(folderPath: Bytes, fs: seq<Entry>, arts: seq<Bytes>, acc: Pack, i: nat, items: seq<Bytes>)
    requires AllFiles(fs) && |arts| == |fs| && i < |fs|
    requires PackedUpTo(folderPath, fs, arts, acc, i) && Last(FullName(folderPath, fs[i])) == DOT
    requires items == acc.items + [BaseName(fs[i].name) + NOT_FOUND, MINUS_ONE]
    ensures Pack(items, acc.data, acc.efficiency) == FilesPack(folderPath, fs, arts, 0)
  {
    assert acc.data + [] == acc.data;
  }

  /**
   * A compressed file adds its share; `i` is the index after it, `acc0` the
   * part gathered before it and `acc` the part gathered with it.
   */
  lemma PackAdvanced(folderPath: Bytes, fs: seq<Entry>, arts: seq<Bytes>, acc0: Pack, acc: Pack, i: nat)
    requires AllFiles(fs) && |arts| == |fs| && 0 < i <= |fs|
    requires PackedUpTo(folderPath, fs, arts, acc0, i - 1) && Last(FullName(folderPath, fs[i - 1])) != DOT
    requires acc.items == acc0.items + [BaseName(fs[i - 1].name), Decimal(|arts[i - 1]|)]
    requires acc.data == acc0.data + arts[i - 1]
    requires acc.efficiency == acc0.efficiency + (|fs[i - 1].contents| - |arts[i - 1]|)
    ensures PackedUpTo(folderPath, fs, arts, acc, i)
  {
    var share := Share(fs[i - 1], arts[i - 1]);
    assert acc == Merge(acc0, share);
    MergeAssoc(acc0, share, FilesPack(folderPath, fs, arts, i));
  }

  /** When every file is done, the gathered part is the whole. */
  lemma PackFinished(folderPath: Bytes, fs: seq<Entry>, arts: seq<Bytes>, acc: Pack)
    requires AllFiles(fs) && |arts| == |fs|
    requires PackedUpTo(folderPath, fs, arts, acc, |fs|)
    ensures acc == FilesPack(folderPath, fs, arts, 0)
  {
    assert acc.items + [] == acc.items && acc.data + [] == acc.data;
  }

  /** The loop of `compress_folder_only_files` that compresses the chosen files in turn. */
  method CompressFiles(folderPath: Bytes, onlyFiles: seq<Entry>, m: Method, rs: int, ghost arts: seq<Bytes>)
    returns (filesAndSizes: seq<Bytes>, data: Bytes, efficiency: int)
    requires AllFiles(onlyFiles) && rs >= 1
    requires m == HUF ==> forall j :: 0 <= j < |onlyFiles| ==> onlyFiles[j].contents != []
    requires ArtifactsOf(folderPath, onlyFiles, m, rs, arts)
    ensures Pack(filesAndSizes, data, efficiency) == FilesPack(folderPath, onlyFiles, arts, 0)
  {
    filesAndSizes, data, efficiency := [], [], 0;
    var i := 0;
    assert PackedUpTo(folderPath, onlyFiles, arts, Pack([], [], 0), 0) by {
      assert Merge(Pack([], [], 0), FilesPack(folderPath, onlyFiles, arts, 0)) == FilesPack(folderPath, onlyFiles, arts, 0);
    }
    while i < |onlyFiles|
      invariant 0 <= i <= |onlyFiles| && |arts| == |onlyFiles|
      invariant PackedUpTo(folderPath, onlyFiles, arts, Pack(filesAndSizes, data, efficiency), i)
    {
      var f := onlyFiles[i];
      var file := BaseName(f.name);
      var full := folderPath + [SLASH] + file;
      ghost var acc0 := Pack(filesAndSizes, data, efficiency);
      if Last(full) == DOT {
        filesAndSizes := filesAndSizes + [file + NOT_FOUND, MINUS_ONE];
        PackFailed(folderPath, onlyFiles, arts, acc0, i, filesAndSizes);
        return;
      }
      var a, size, eff := CompressAt(folderPath, onlyFiles, i, full, m, rs, arts);
      filesAndSizes := filesAndSizes + [file, Decimal(size)];
      data := data + a;
      efficiency := efficiency + eff;
      i := i + 1;
      PackAdvanced(folderPath, onlyFiles, arts, acc0, Pack(filesAndSizes, data, efficiency), i);
    }
    PackFinished(folderPath, onlyFiles, arts, Pack(filesAndSizes, data, efficiency));
  }

  /**
   * `compress_folder_only_files`: chooses the files, compresses each with a
   * fresh `Compressor`, and lists the base names with the artifact sizes.
   */
  method CompressFolderOnlyFiles(folderPath: Bytes, es: seq<Entry>, m: Method, rs: int) returns (r: Packed)
    requires rs >= 1
    ensures r == OnlyFiles(folderPath, es, m, rs)
  {
    var onlyFiles := FilesOf(es);
    if m == HUF {
      onlyFiles := KeepForHuf(onlyFiles);
    }
    assert onlyFiles == Chosen(es, m);
    ArtifactsAre(folderPath, onlyFiles, m, rs);
    var filesAndSizes, data, efficiency := CompressFiles(folderPath, onlyFiles, m, rs, Artifacts(folderPath, onlyFiles, m, rs));
    var line := LineOfFilesInFolder(folderPath, filesAndSizes);
    r := Packed(line, data, efficiency);
  }

  /* ---------------------------------------------------------------------- */
  /* compress_folder                                                         */

  /** `first_line[:-1]` when its last byte is a comma. */
  function DropComma(line: Bytes): (r: Bytes)
    requires line != []
  {
    if Last(line) == COMMA then line[..|line| - 1] else line
  }

  /**
   * What `compress_folder` returns.  A folder holding only files closes its
   * listing with `],` and compresses with repeat size 1; any other folder
   * lists its files with the given repeat size, then each subfolder in
   * listing order (compressed with repeat size 1), and closes with `]`.
   */
  function FolderPacked(folderPath: Bytes, es: seq<Entry>, m: Method, rs: int): Packed
    requires rs >= 1
    decreases es, 1
  {
    if AllFiles(es) then
      var p := OnlyFiles(folderPath, es, m, 1);
      Packed(DropComma(p.header) + [CLOSE, COMMA], p.data, p.efficiency)
    else
      var p := MergeAll(OnlyFiles(folderPath, es, m, rs), Subfolders(folderPath, es, m));
      Packed(DropComma(p.header) + [CLOSE], p.data, p.efficiency)
  }

  /** The subfolders' contributions, in listing order. */
  function Subfolders(folderPath: Bytes, es: seq<Entry>, m: Method): Packed
    decreases es, 0
  {
    if es == [] then Packed([], [], 0)
    else
      var e := es[|es| - 1];
      var front := Subfolders(folderPath, es[..|es| - 1], m);
      if e.Dir? then MergeAll(front, FolderPacked(folderPath + [SLASH] + e.name, e.entries, m, 1)) else front
  }

  lemma OnlyFilesHeader(folderPath: Bytes, es: seq<Entry>, m: Method, rs: int)
    requires rs >= 1
    ensures OnlyFiles(folderPath, es, m, rs).header != []
  {
  }

  /**
   * `compress_folder`: a folder with only files is listed on its own; any
   * other folder lists its files, then compresses each subfolder in turn,
   * appending its header and payload.
   */
  method CompressFolder(folderPath: Bytes, es: seq<Entry>, m: Method, rs: int) returns (r: Packed)
    requires rs >= 1
    ensures r == FolderPacked(folderPath, es, m, rs)
    decreases es, 1
  {
    var allFiles := OnlyFilesIn(es);
    if allFiles {
      var p := CompressFolderOnlyFiles(folderPath, es, m, 1);
      OnlyFilesHeader(folderPath, es, m, 1);
      var newFirstLine := CloseLine(p.header, [CLOSE, COMMA]);
      r := Packed(newFirstLine, p.data, p.efficiency);
    } else {
      var first := CompressFolderOnlyFiles(folderPath, es, m, rs);
      var subs := CompressSubfolders(folderPath, es, m);
      OnlyFilesHeader(folderPath, es, m, rs);
      var firstLine := CloseLine(first.header + subs.header, [CLOSE]);
      r := Packed(firstLine, first.data + subs.data, first.efficiency + subs.efficiency);
    }
  }

  /** The loop of `compress_folder` that tells whether every entry is a file. */
  method OnlyFilesIn(es: seq<Entry>) returns (allFiles: bool)
    ensures allFiles <==> AllFiles(es)
  {
    allFiles := true;
    for i := 0 to |es|
      invariant allFiles <==> AllFiles(es[..i])
    {
      if !es[i].File? {
        allFiles := false;
      }
    }
    assert es[..|es|] == es;
  }

  /** How `compress_folder` closes a listing: a trailing comma is dropped, then the closer appended. */
  method CloseLine(line: Bytes, closer: Bytes) returns (r: Bytes)
    requires line != []
    ensures r == DropComma(line) + closer
  {
    r := line;
    if Last(r) == COMMA {
      r := r[..|r| - 1];
    }
    r := r + closer;
  }

  /** The loop of `compress_folder` over the subfolders, each compressed with repeat size 1. */
  method CompressSubfolders(folderPath: Bytes, es: seq<Entry>, m: Method) returns (r: Packed)
    ensures r == Subfolders(folderPath, es, m)
    decreases es, 0
  {
    r := Packed([], [], 0);
    for i := 0 to |es|
      invariant r == Subfolders(folderPath, es[..i], m)
    {
      assert es[..i + 1][..i] == es[..i] && es[..i + 1][i] == es[i];
      var e := es[i];
      if e.Dir? {
        var sub := CompressFolder(folderPath + [SLASH] + e.name, e.entries, m, 1);
        r := Packed(r.header + sub.header, r.data + sub.data, r.efficiency + sub.efficiency);
      }
    }
    assert es[..|es|] == es;
  }

  /** What a folder archive holds: the header line, CRLF, and the payload. */
  function FolderArchive(folderPath: Bytes, es: seq<Entry>, m: Method, rs: int): Bytes
    requires rs >= 1
  {
    var p := FolderPacked(folderPath, es, m, rs);
    p.header + CRLF + p.data
  }
}
