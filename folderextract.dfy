/**
 * Extracting a folder archive: the header line `path[name,size,...]` is
 * scanned left to right; a `[` opens a folder (created, then its listing
 * is read by a recursive call), `name,size` takes the next `size` bytes of
 * the payload for that name, and `]` ends a listing.  When a listing ends,
 * every slice it collected goes through the single-file extractor, and
 * what comes out is written.  The file system is not modelled: creating a
 * folder and writing a file are recorded as actions, in the order they
 * happen.
 */
module FolderExtract {
  import opened Bytes
  import opened Extract

  /** A change to the file system. */
  datatype Action = MakeDir(path: Bytes) | WriteFile(path: Bytes, data: Bytes)

  /** How a call of `extract_files` ends: it returns the unread header, it raises, or it never returns. */
  datatype End = Returned(rest: Bytes) | Raised | Hung

  /** What a call does to the file system, and how it ends. */
  datatype Run = Run(actions: seq<Action>, end: End)

  /** An entry of the dictionary `extract_files` fills: a file name and its slice of the payload. */
  datatype Slot = Slot(name: Bytes, data: Bytes)

  /** `acts` done first, then `r`. */
  function After(acts: seq<Action>, r: Run): Run
  {
    Run(acts + r.actions, r.end)
  }

  lemma AfterAfter(a: seq<Action>, b: seq<Action>, r: Run)
    ensures After(a, After(b, r)) == After(a + b, r)
  {
    Regroup(a, b, r.actions);
  }

  /* ---------------------------------------------------------------------- */
  /* The dictionary of slices                                                */

  /** The names in the dictionary, in insertion order. */
  function Names(files: seq<Slot>): (r: seq<Bytes>)
    ensures |r| == |files|
  {
    seq(|files|, i requires 0 <= i < |files| => files[i].name)
  }

  /** The place of `name` in the dictionary, searching from `i` on; `|files|` when it is absent. */
  function SlotIndex(files: seq<Slot>, name: Bytes, i: nat): (r: nat)
    requires i <= |files|
    ensures i <= r <= |files|
    ensures r < |files| ==> files[r].name == name
    decreases |files| - i
  {
    if i == |files| || files[i].name == name then i else SlotIndex(files, name, i + 1)
  }

  /** `files[name]`, if present. */
  function Lookup(files: seq<Slot>, name: Bytes): Option<Bytes>
  {
    var k := SlotIndex(files, name, 0);
    if k < |files| then Some(files[k].data) else None
  }

  /**
   * `files[name] = data`: a new name goes at the end; a name already present
   * keeps its place and gets the new data.
   */
  function Store(files: seq<Slot>, name: Bytes, data: Bytes): seq<Slot>
  {
    var k := SlotIndex(files, name, 0);
    if k < |files| then files[k := Slot(name, data)] else files + [Slot(name, data)]
  }

  /** The search finds the first slot holding the name, and nothing when no slot holds it. */
  lemma {:induction false} SlotIndexFirst(files: seq<Slot>, name: Bytes, i: nat, j: nat)
    requires i <= |files| && i <= j < SlotIndex(files, name, i)
    ensures files[j].name != name
    decreases |files| - i
  {
    if i < j {
      SlotIndexFirst(files, name, i + 1, j);
    }
  }

  /** Replacing a slot by one of the same name leaves every search as it was. */
  lemma {:induction false} SlotIndexUpdate(files: seq<Slot>, k: nat, s: Slot, name: Bytes, i: nat)
    requires i <= |files| && k < |files| && s.name == files[k].name
    ensures SlotIndex(files[k := s], name, i) == SlotIndex(files, name, i)
    decreases |files| - i
  {
    if i < |files| && files[i].name != name {
      SlotIndexUpdate(files, k, s, name, i + 1);
    }
  }

  /** Appending a slot of another name leaves a search that succeeds as it was and makes one that fails fail later. */
  lemma {:induction false} SlotIndexAppend(files: seq<Slot>, s: Slot, name: Bytes, i: nat)
    requires i <= |files| && s.name != name
    ensures SlotIndex(files + [s], name, i) == if SlotIndex(files, name, i) < |files| then SlotIndex(files, name, i) else |files| + 1
    decreases |files| - i
  {
    if i < |files| && files[i].name != name {
      SlotIndexAppend(files, s, name, i + 1);
    }
  }

  /** After a store, the name has the new data and every other name keeps its own. */
  lemma StoreLookup(files: seq<Slot>, name: Bytes, data: Bytes, k: Bytes)
    ensures Lookup(Store(files, name, data), k) == if k == name then Some(data) else Lookup(files, k)
  {
    var i := SlotIndex(files, name, 0);
    if i < |files| {
      SlotIndexUpdate(files, i, Slot(name, data), k, 0);
    } else if k == name {
      forall j | 0 <= j < |files| ensures (files + [Slot(name, data)])[j].name != name {
        SlotIndexFirst(files, name, 0, j);
      }
      SlotIndexBeyond(files + [Slot(name, data)], name, 0, |files|);
      SlotIndexStops(files + [Slot(name, data)], name, 0, |files|);
    } else {
      SlotIndexAppend(files, Slot(name, data), k, 0);
    }
  }

  /** A search that passes no slot of the name before `j` reaches `j` at least. */
  lemma {:induction false} SlotIndexBeyond(files: seq<Slot>, name: Bytes, i: nat, j: nat)
    requires i <= j <= |files|
    requires forall m :: i <= m < j ==> files[m].name != name
    ensures SlotIndex(files, name, i) >= j
    decreases |files| - i
  {
    if i < j {
      SlotIndexBeyond(files, name, i + 1, j);
    }
  }

  /** A search stops at the latest at a slot holding the name. */
  lemma {:induction false} SlotIndexStops(files: seq<Slot>, name: Bytes, i: nat, j: nat)
    requires i <= j < |files| && files[j].name == name
    ensures SlotIndex(files, name, i) <= j
    decreases |files| - i
  {
    if i < j && files[i].name != name {
      SlotIndexStops(files, name, i + 1, j);
    }
  }

  /** A store appends the name when it is new and keeps the order of names otherwise. */
  lemma StoreNames(files: seq<Slot>, name: Bytes, data: Bytes)
    ensures Names(Store(files, name, data)) == if name in Names(files) then Names(files) else Names(files) + [name]
  {
    var i := SlotIndex(files, name, 0);
    if i < |files| {
      assert Names(files)[i] == name;
    } else {
      forall j | 0 <= j < |files| ensures Names(files)[j] != name {
        SlotIndexFirst(files, name, 0, j);
      }
    }
  }

  /* ---------------------------------------------------------------------- */
  /* Pieces of the scan                                                      */

  /**
   * Where Python cuts `s[:n]` and `s[n:]` for a sequence of length `len`: a
   * negative `n` counts from the end, and the cut never leaves the sequence.
   */
  function Cut(n: int, len: nat): (r: nat)
    ensures r <= len
  {
    if n < 0 then (if len + n < 0 then 0 else len + n)
    else if n > len then len
    else n
  }

  /** The position of the first ',' or ']' of `h` from `j` on, if there is one. */
  function NumberEnd(h: Bytes, j: nat): (r: Option<nat>)
    requires j <= |h|
    ensures r.Some? ==> j <= r.value < |h| && (h[r.value] == COMMA || h[r.value] == CLOSE)
    decreases |h| - j
  {
    if j == |h| then None
    else if h[j] == COMMA || h[j] == CLOSE then Some(j)
    else NumberEnd(h, j + 1)
  }

  /** No ',' or ']' lies between `j` and what `NumberEnd` finds, nor anywhere after `j` when it finds nothing. */
  lemma {:induction false} NumberEndFirst(h: Bytes, j: nat, k: nat)
    requires j <= k < |h|
    requires NumberEnd(h, j).None? || k < NumberEnd(h, j).value
    ensures h[k] != COMMA && h[k] != CLOSE
    decreases |h| - j
  {
    if j < k {
      NumberEndFirst(h, j + 1, k);
    }
  }

  /** The file `extract_files` writes for `name`: inside the folder, or as given when the folder is empty. */
  function PathIn(folder: Bytes, name: Bytes): Bytes
  {
    if folder == [] then name else folder + [SLASH] + name
  }

  /**
   * The closing loop of `extract_files`, from the `i`-th slot on: each slice
   * is extracted; bytes are written, an error message is passed over, and an
   * exception or an endless decoding ends the call.  `ext` is the
   * single-file extractor (`Extracted` in `FolderExtracted`), kept as a
   * parameter so that the reading of the header can be reasoned about
   * apart from it.
   */
  function Writes(files: seq<Slot>, i: nat, folder: Bytes, rest: Bytes, ext: Bytes -> Outcome): (r: Run)
    requires i <= |files|
    ensures r.end.Returned? ==> r.end.rest == rest
    decreases |files| - i
  {
    if i == |files| then Run([], Returned(rest))
    else
      match ext(files[i].data)
      case Data(o) => After([WriteFile(PathIn(folder, files[i].name), o)], Writes(files, i + 1, folder, rest, ext))
      case Message(_) => Writes(files, i + 1, folder, rest, ext)
      case Raises => Run([], Raised)
      case Hangs => Run([], Hung)
  }

  /* ---------------------------------------------------------------------- */
  /* extract_files                                                           */

  /**
   * What reading one `name,size` entry yields: the name and its slice, the
   * header after the entry and the payload after the slice; `Bad` where it
   * raises.
   */
  datatype Read = Read(name: Bytes, slice: Bytes, rest: Bytes, content: Bytes) | Bad

  /**
   * The `,` branch of `extract_files`: the name is what precedes the comma;
   * the size runs up to the next ',' or ']' and must parse as an `int`; that
   * many bytes of the payload are sliced off for the name; the header goes
   * on after the delimiter, skipping one more byte after a ']'.
   */
  function EntryRead(header: Bytes, hp: nat, content: Bytes): (r: Read)
    requires hp < |header| && header[hp] == COMMA
    ensures r.Read? ==> |r.rest| < |header|
  {
    var h := header[hp + 1..];
    match NumberEnd(h, 0)
    case None => Bad
    case Some(j) =>
      match ParseInt(h[..j])
      case None => Bad
      case Some(n) =>
        var cut := Cut(n, |content|);
        var j' := if h[j] == CLOSE then j + 1 else j;
        var rest := if j' + 1 <= |h| then h[j' + 1..] else [];
        Read(header[..hp], content[..cut], rest, content[cut..])
  }

  /** The loop of the `,` branch that collects the size up to the next ',' or ']'; it stops at the end of the header too. */
  method ReadSize(header: Bytes) returns (numBytes: Bytes, hp: nat)
    ensures hp <= |header| && numBytes == header[..hp]
    ensures hp == |header| ==> NumberEnd(header, 0).None?
    ensures hp < |header| ==> NumberEnd(header, 0) == Some(hp)
  {
    hp := 0;
    numBytes := [];
    while hp < |header| && header[hp] != COMMA && header[hp] != CLOSE
      invariant hp <= |header| && numBytes == header[..hp]
      invariant NumberEnd(header, hp) == NumberEnd(header, 0)
    {
      numBytes := numBytes + [header[hp]];
      hp := hp + 1;
    }
  }

  method ReadEntry(header0: Bytes, hp0: nat, content0: Bytes) returns (r: Read)
    requires hp0 < |header0| && header0[hp0] == COMMA
    ensures r == EntryRead(header0, hp0, content0)
  {
    var fileName := header0[..hp0];
    var header := header0[hp0 + 1..];
    var numBytes, hp := ReadSize(header);
    if hp == |header| {
      return Bad;
    }
    var n := ParseInt(numBytes);
    if n.None? {
      return Bad;
    }
    var cut := Cut(n.value, |content0|);
    if header[hp] == CLOSE {
      hp := hp + 1;
    }
    var rest := if hp + 1 <= |header| then header[hp + 1..] else [];
    r := Read(fileName, content0[..cut], rest, content0[cut..]);
  }

  /** What `extract_files(header, content, folder)` does, and how it ends. */
  function FilesExtracted(header: Bytes, content: Bytes, folder: Bytes, ext: Bytes -> Outcome): (r: Run)
    ensures r.end.Returned? ==> |r.end.rest| <= |header|
    decreases |header|, 1, 0
  {
    Scan(header, 0, content, folder, [], [], ext)
  }

  /**
   * The loop of `extract_files` at cursor `hp`, with the payload still to
   * be sliced, the slices collected so far and the actions done so far.
   * An index past the header raises, as does a size with no ',' or ']'
   * after it or one `int` refuses.
   */
  function Scan(header: Bytes, hp: nat, content: Bytes, thisFolder: Bytes, files: seq<Slot>, acts: seq<Action>, ext: Bytes -> Outcome): (r: Run)
    ensures r.end.Returned? ==> |r.end.rest| <= |header|
    decreases |header|, 0, |header| - hp
  {
    if header == [] || (hp < |header| && header[hp] == CLOSE) then After(acts, Writes(files, 0, thisFolder, header, ext))
    else if hp >= |header| then Run(acts, Raised)
    else if header[hp] == OPEN then
      var sub := Split(header, [OPEN])[0];
      var inner := FilesExtracted(header[hp + 1..], content, sub, ext);
      var acts' := acts + [MakeDir(sub)] + inner.actions;
      if inner.end.Returned? then Scan(inner.end.rest, 0, content, thisFolder, files, acts', ext)
      else Run(acts', inner.end)
    else if header[hp] == COMMA then
      match EntryRead(header, hp, content)
      case Bad => Run(acts, Raised)
      case Read(name, slice, rest, content') => Scan(rest, 0, content', thisFolder, Store(files, name, slice), acts, ext)
    else Scan(header, hp + 1, content, thisFolder, files, acts, ext)
  }

  /** The closing loop of `extract_files`. */
  method WriteFiles(files: seq<Slot>, folder: Bytes, rest: Bytes) returns (r: Run)
    ensures r == Writes(files, 0, folder, rest, Extracted)
  {
    var acts: seq<Action> := [];
    for i := 0 to |files|
      invariant After(acts, Writes(files, i, folder, rest, Extracted)) == Writes(files, 0, folder, rest, Extracted)
    {
      var fileData := Extractor(files[i].data);
      match fileData
      case Data(o) =>
        AfterAfter(acts, [WriteFile(PathIn(folder, files[i].name), o)], Writes(files, i + 1, folder, rest, Extracted));
        acts := acts + [WriteFile(PathIn(folder, files[i].name), o)];
      case Message(_) =>
      case Raises =>
        assert acts + [] == acts;
        return Run(acts, Raised);
      case Hangs =>
        assert acts + [] == acts;
        return Run(acts, Hung);
    }
    assert acts + [] == acts;
    r := Run(acts, Returned(rest));
  }

  /**
   * `extract_files`: walks the header cursor, recursing into each folder
   * and slicing the payload for each file, then extracts and writes the
   * files it collected; returns what is left of the header.
   */
  method ExtractFiles(header0: Bytes, content0: Bytes, folder: Bytes) returns (r: Run)
    ensures r == FilesExtracted(header0, content0, folder, Extracted)
    decreases |header0|
  {
    var header, content, hp := header0, content0, 0;
    var files: seq<Slot> := [];
    var acts: seq<Action> := [];
    var thisFolder := folder;
    while header != []
      invariant hp <= |header| <= |header0|
      invariant Scan(header, hp, content, thisFolder, files, acts, Extracted) == FilesExtracted(header0, content0, folder, Extracted)
      decreases |header|, |header| - hp
    {
      if hp == |header| {
        return Run(acts, Raised);
      }
      if header[hp] == CLOSE {
        break;
      }
      if header[hp] == OPEN {
        var sub := Split(header, [OPEN])[0];
        var inner := ExtractFiles(header[hp + 1..], content, sub);
        acts := acts + [MakeDir(sub)] + inner.actions;
        if !inner.end.Returned? {
          return Run(acts, inner.end);
        }
        header := inner.end.rest;
        hp := 0;
      } else if header[hp] == COMMA {
        var entry := ReadEntry(header, hp, content);
        if entry.Bad? {
          return Run(acts, Raised);
        }
        files := Store(files, entry.name, entry.slice);
        header, content := entry.rest, entry.content;
        hp := 0;
      } else {
        hp := hp + 1;
      }
    }
    var written := WriteFiles(files, thisFolder, header);
    r := After(acts, written);
  }

  /* ---------------------------------------------------------------------- */
  /* extract_folder                                                          */

  /** What `extract_folder` does: the first CRLF line is the header, the rest rejoined is the payload. */
  function FolderExtracted(fileData: Bytes): Run
  {
    var lines := Split(fileData, CRLF);
    if !IsUtf8(lines[0]) then Run([], Raised)
    else FilesExtracted(lines[0], Join(lines[1..], CRLF), [], Extracted)
  }

  method ExtractFolder(fileData: Bytes) returns (r: Run)
    ensures r == FolderExtracted(fileData)
  {
    var dataLst := Split(fileData, CRLF);
    var header := dataLst[0];
    var content := Join(dataLst[1..], CRLF);
    if !IsUtf8(header) {
      return Run([], Raised);
    }
    r := ExtractFiles(header, content, []);
  }
}
