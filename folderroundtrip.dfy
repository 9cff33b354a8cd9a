/**
 * Folder archives read back: for a folder holding only files, with a path
 * and base names that the listing can carry, extracting the archive
 * creates the folder and hands each file's artifact, under its base name,
 * to the single-file extractor, in listing order; with the conditions of
 * the single-file round trips, every file is written back unchanged.
 */
module FolderRoundTrip {
  import opened Bytes
  import opened Compress
  import opened Extract
  import opened Rle
  import opened Folder
  import opened FolderExtract
  import opened RoundTrip

  /** Text the header can carry as a path or a name: no listing delimiter, no CR, valid UTF-8. */
  predicate Plain(s: Bytes)
  {
    OPEN !in s && CLOSE !in s && COMMA !in s && CR !in s && IsUtf8(s)
  }

  /** Names the listing can carry, each plain. */
  predicate AllPlain(names: seq<Bytes>)
  {
    forall j :: 0 <= j < |names| ==> Plain(names[j])
  }

  /** Names the listing can carry and read back to distinct files: each plain, no two alike. */
  predicate Distinct(names: seq<Bytes>)
  {
    && AllPlain(names)
    && (forall j, k :: 0 <= j < k < |names| ==> names[j] != names[k])
  }

  /** The base names of the files of a listing, in order. */
  function BaseNames(fs: seq<Entry>): (r: seq<Bytes>)
    requires AllFiles(fs)
    ensures |r| == |fs|
  {
    seq(|fs|, j requires 0 <= j < |fs| => BaseName(fs[j].name))
  }

  /** No file of the listing has a full path ending in '.', which the compressor refuses. */
  predicate NoDotEnd(folderPath: Bytes, fs: seq<Entry>)
    requires AllFiles(fs)
  {
    forall j :: 0 <= j < |fs| ==> Last(FullName(folderPath, fs[j])) != DOT
  }

  /**
   * A folder of files whose listing reads back: a plain path, plain and
   * distinct base names, and no name the compressor refuses.
   */
  predicate Listable(folderPath: Bytes, fs: seq<Entry>)
    requires AllFiles(fs)
  {
    Plain(folderPath) && Distinct(BaseNames(fs)) && NoDotEnd(folderPath, fs)
  }

  /** The listing items from the `i`-th file on: each name followed by its artifact size. */
  function Items(names: seq<Bytes>, arts: seq<Bytes>, i: nat): seq<Bytes>
    requires |arts| == |names| && i <= |names|
    decreases |names| - i
  {
    if i == |names| then [] else [names[i], Decimal(|arts[i]|)] + Items(names, arts, i + 1)
  }

  /** The artifacts from the `i`-th on, one after the other. */
  function Payload(arts: seq<Bytes>, i: nat): Bytes
    requires i <= |arts|
    decreases |arts| - i
  {
    if i == |arts| then [] else arts[i] + Payload(arts, i + 1)
  }

  /** One entry of the listing: the name and the artifact size. */
  function Item(names: seq<Bytes>, arts: seq<Bytes>, i: nat): Bytes
    requires |arts| == |names| && i < |names|
  {
    names[i] + [COMMA] + Decimal(|arts[i]|)
  }

  /** The listing from the `i`-th entry on, entries separated by commas. */
  function Entries(names: seq<Bytes>, arts: seq<Bytes>, i: nat): Bytes
    requires |arts| == |names| && i < |names|
    decreases |names| - i
  {
    if i + 1 == |names| then Item(names, arts, i) else Item(names, arts, i) + [COMMA] + Entries(names, arts, i + 1)
  }

  /** The whole listing between the brackets. */
  function Listing(names: seq<Bytes>, arts: seq<Bytes>): Bytes
    requires |arts| == |names|
  {
    if names == [] then [] else Entries(names, arts, 0)
  }

  /** The header of a folder of files: the path, then the listing in brackets, then a comma. */
  function Header(folderPath: Bytes, names: seq<Bytes>, arts: seq<Bytes>): Bytes
    requires |arts| == |names|
  {
    folderPath + [OPEN] + Listing(names, arts) + [CLOSE, COMMA]
  }

  /** What the extractor holds after the first `i` entries: each name with its artifact. */
  function Slots(names: seq<Bytes>, arts: seq<Bytes>, i: nat): (r: seq<Slot>)
    requires |arts| == |names| && i <= |names|
    ensures |r| == i
  {
    seq(i, j requires 0 <= j < i => Slot(names[j], arts[j]))
  }

  /** What is left of the header once the listing of a folder of files is read. */
  function Leftover(names: seq<Bytes>): Bytes
  {
    if names == [] then [CLOSE, COMMA] else []
  }

  /* ---------------------------------------------------------------------- */
  /* The header the compressor writes                                       */

  /** With no refused name, the compressor lists each file's base name and size and appends its artifact. */
  lemma {:induction false} PackOfFiles(folderPath: Bytes, fs: seq<Entry>, arts: seq<Bytes>, i: nat)
    requires AllFiles(fs) && |arts| == |fs| && i <= |fs| && NoDotEnd(folderPath, fs)
    ensures FilesPack(folderPath, fs, arts, i).items == Items(BaseNames(fs), arts, i)
    ensures FilesPack(folderPath, fs, arts, i).data == Payload(arts, i)
    decreases |fs| - i
  {
    if i < |fs| {
      PackOfFiles(folderPath, fs, arts, i + 1);
    }
  }

  /** The items written one after the other, each followed by a comma, are the listing and one more comma. */
  lemma {:induction false} TextOfItems(names: seq<Bytes>, arts: seq<Bytes>, i: nat)
    requires |arts| == |names| && i < |names|
    ensures Text(Items(names, arts, i)) == Entries(names, arts, i) + [COMMA]
    decreases |names| - i
  {
    var b, d := names[i], Decimal(|arts[i]|);
    var rest := Items(names, arts, i + 1);
    var item := Item(names, arts, i);
    assert Text(Items(names, arts, i)) == item + [COMMA] + Text(rest) by {
      assert Items(names, arts, i) == [b, d] + rest;
      TextAppend([b, d], rest);
      assert [b, d][1..] == [d];
      assert Text([d]) == d + [COMMA] + Text([]);
      assert Text([b, d]) == b + [COMMA] + (d + [COMMA]);
    }
    if i + 1 == |names| {
      assert Text(rest) == [] by {
        assert rest == [];
      }
    } else {
      var e := Entries(names, arts, i + 1);
      assert Text(rest) == e + [COMMA] by {
        TextOfItems(names, arts, i + 1);
      }
      assert Entries(names, arts, i) == item + [COMMA] + e;
    }
  }

  /** The first line the compressor writes for a folder of files. */
  lemma FilesHeader(folderPath: Bytes, es: seq<Entry>, m: Method, rs: int)
    requires AllFiles(es) && rs >= 1
    requires NoDotEnd(folderPath, Chosen(es, m))
    ensures var fs := Chosen(es, m);
            var arts := Artifacts(folderPath, fs, m, 1);
            FolderPacked(folderPath, es, m, rs).header == Header(folderPath, BaseNames(fs), arts) &&
            FolderPacked(folderPath, es, m, rs).data == Payload(arts, 0)
  {
    var fs := Chosen(es, m);
    var arts := Artifacts(folderPath, fs, m, 1);
    var names := BaseNames(fs);
    PackOfFiles(folderPath, fs, arts, 0);
    var line := folderPath + [OPEN] + Text(Items(names, arts, 0));
    if fs == [] {
      assert line == folderPath + [OPEN];
    } else {
      TextOfItems(names, arts, 0);
      Regroup(folderPath + [OPEN], Entries(names, arts, 0), [COMMA]);
      assert DropComma(line) == folderPath + [OPEN] + Entries(names, arts, 0);
    }
  }

  /* ---------------------------------------------------------------------- */
  /* The header carries no CRLF and is valid UTF-8                          */

  /** Text with no CR that decodes. */
  predicate Clean(s: Bytes)
  {
    CR !in s && IsUtf8(s)
  }

  lemma CleanAppend(a: Bytes, b: Bytes)
    requires Clean(a) && Clean(b)
    ensures Clean(a + b)
  {
    Utf8Append(a, b);
  }

  lemma CleanAscii(s: Bytes)
    requires IsAscii(s) && CR !in s
    ensures Clean(s)
  {
    AsciiIsUtf8(s);
  }

  lemma CleanDecimal(n: nat)
    ensures Clean(Decimal(n))
  {
    DecimalDigits(n);
    AsciiIsUtf8(Decimal(n));
  }

  lemma CleanNoCrlf(s: Bytes)
    requires CR !in s
    ensures NoCrlf(s)
  {
    forall i | 0 <= i < |s| - 1 ensures s[i] != CR {
      assert s[i] in s;
    }
  }

  lemma {:induction false} CleanEntries(names: seq<Bytes>, arts: seq<Bytes>, i: nat)
    requires |arts| == |names| && i < |names| && AllPlain(names)
    ensures Clean(Entries(names, arts, i))
    decreases |names| - i
  {
    CleanAscii([COMMA]);
    CleanDecimal(|arts[i]|);
    CleanAppend(names[i], [COMMA]);
    CleanAppend(names[i] + [COMMA], Decimal(|arts[i]|));
    if i + 1 < |names| {
      CleanEntries(names, arts, i + 1);
      CleanAppend(Item(names, arts, i), [COMMA]);
      CleanAppend(Item(names, arts, i) + [COMMA], Entries(names, arts, i + 1));
    }
  }

  lemma CleanHeader(folderPath: Bytes, names: seq<Bytes>, arts: seq<Bytes>)
    requires |arts| == |names| && Plain(folderPath) && AllPlain(names)
    ensures NoCrlf(Header(folderPath, names, arts)) && IsUtf8(Header(folderPath, names, arts))
  {
    CleanAscii([OPEN]);
    CleanAscii([CLOSE, COMMA]);
    if names != [] {
      CleanEntries(names, arts, 0);
    }
    CleanAppend(folderPath, [OPEN]);
    CleanAppend(folderPath + [OPEN], Listing(names, arts));
    CleanAppend(folderPath + [OPEN] + Listing(names, arts), [CLOSE, COMMA]);
    CleanNoCrlf(Header(folderPath, names, arts));
  }

  /* ---------------------------------------------------------------------- */
  /* Reading the header back                                                 */

  /** The cursor passes over bytes that are no delimiter. */
  lemma {:induction false} ScanSkip(header: Bytes, hp: nat, q: nat, content: Bytes, thisFolder: Bytes,
                                    files: seq<Slot>, acts: seq<Action>, ext: Bytes -> Outcome)
    requires hp <= q < |header|
    requires forall k :: hp <= k < q ==> header[k] != OPEN && header[k] != CLOSE && header[k] != COMMA
    ensures Scan(header, hp, content, thisFolder, files, acts, ext) == Scan(header, q, content, thisFolder, files, acts, ext)
    decreases q - hp
  {
    if hp < q {
      ScanSkip(header, hp + 1, q, content, thisFolder, files, acts, ext);
    }
  }

  /** The size ends at the first delimiter after it. */
  lemma {:induction false} NumberEndAt(h: Bytes, j: nat, q: nat)
    requires j <= q < |h| && (h[q] == COMMA || h[q] == CLOSE)
    requires forall k :: j <= k < q ==> h[k] != COMMA && h[k] != CLOSE
    ensures NumberEnd(h, j) == Some(q)
    decreases q - j
  {
    if j < q {
      NumberEndAt(h, j + 1, q);
    }
  }

  /** A name the dictionary does not hold yet goes at its end. */
  lemma StoreSlots(names: seq<Bytes>, arts: seq<Bytes>, i: nat)
    requires |arts| == |names| && i < |names| && Distinct(names)
    ensures Store(Slots(names, arts, i), names[i], arts[i]) == Slots(names, arts, i + 1)
  {
    var s := Slots(names, arts, i);
    forall k | 0 <= k < i ensures s[k].name != names[i] {
    }
    SlotIndexBeyond(s, names[i], 0, i);
    assert Store(s, names[i], arts[i]) == s + [Slot(names[i], arts[i])];
  }

  /** The size ends at the delimiter after its digits. */
  lemma SizeEnd(h: Bytes, a: Bytes, tail: Bytes)
    requires h == Decimal(|a|) + tail && |tail| >= 1 && (tail[0] == COMMA || tail[0] == CLOSE)
    ensures NumberEnd(h, 0) == Some(|Decimal(|a|)|)
  {
    var d := Decimal(|a|);
    DecimalDigits(|a|);
    forall k | 0 <= k < |d| ensures h[k] != COMMA && h[k] != CLOSE {
      assert h[k] == d[k] && IsDigit(d[k]);
    }
    NumberEndAt(h, 0, |d|);
  }

  /** The digits of the size read back as the size. */
  lemma SizeValue(h: Bytes, a: Bytes, tail: Bytes)
    requires h == Decimal(|a|) + tail
    ensures |Decimal(|a|)| <= |h| && ParseInt(h[..|Decimal(|a|)|]) == Some(|a|)
  {
    assert h[..|Decimal(|a|)|] == Decimal(|a|);
    ParseDecimal(|a|);
  }

  /** What follows the size: nothing at the end of the listing, the next entry otherwise. */
  lemma SizeRest(h: Bytes, d: Bytes, tail: Bytes, next: Bytes, rest: Bytes)
    requires tail == [CLOSE, COMMA] || tail == [COMMA] + next + [CLOSE, COMMA]
    requires h == d + tail
    requires rest == if tail == [CLOSE, COMMA] then [] else next + [CLOSE, COMMA]
    ensures var j' := if h[|d|] == CLOSE then |d| + 1 else |d|;
            (if j' + 1 <= |h| then h[j' + 1..] else []) == rest
  {
    assert h[|d|] == tail[0];
    if tail != [CLOSE, COMMA] {
      assert h[|d| + 1..] == next + [CLOSE, COMMA];
    }
  }

  /**
   * The header holds the name `b` and a comma at its front, then a size
   * ending at `j` that reads as `n`, and `rest` after the delimiter that
   * ends the size.
   */
  predicate SizedEntry(header: Bytes, b: Bytes, n: int, j: nat, rest: Bytes)
  {
    && |b| < |header| && header[|b|] == COMMA && header[..|b|] == b
    && var h := header[|b| + 1..];
       && NumberEnd(h, 0) == Some(j)
       && ParseInt(h[..j]) == Some(n)
       && var j' := if h[j] == CLOSE then j + 1 else j;
          (if j' + 1 <= |h| then h[j' + 1..] else []) == rest
  }

  /** An entry `name,size` of the listing, followed by the end of the listing or by more entries. */
  lemma EntryFacts(header: Bytes, b: Bytes, a: Bytes, tail: Bytes, next: Bytes, rest: Bytes)
    requires tail == [CLOSE, COMMA] || tail == [COMMA] + next + [CLOSE, COMMA]
    requires header == b + [COMMA] + (Decimal(|a|) + tail)
    requires rest == if tail == [CLOSE, COMMA] then [] else next + [CLOSE, COMMA]
    ensures SizedEntry(header, b, |a|, |Decimal(|a|)|, rest)
  {
    var d := Decimal(|a|);
    NameParts(header, b, d + tail);
    var h := header[|b| + 1..];
    SizeEnd(h, a, tail);
    SizeValue(h, a, tail);
    SizeRest(h, d, tail, next, rest);
  }

  /**
   * Reading one entry `name,size` of the listing gives the name, the
   * artifact the size cuts from the payload, and the rest of the listing and
   * of the payload.
   */
  lemma ReadItem(header: Bytes, b: Bytes, a: Bytes, more: Bytes, rest: Bytes, j: nat)
    requires SizedEntry(header, b, |a|, j, rest)
    ensures header[|b|] == COMMA
    ensures EntryRead(header, |b|, a + more) == Read(b, a, rest, more)
  {
    SliceParts(a, more);
  }

  /** A name, a comma, and what follows. */
  lemma NameParts(header: Bytes, b: Bytes, y: Bytes)
    requires header == b + [COMMA] + y
    ensures |b| < |header| && header[|b|] == COMMA && header[..|b|] == b && header[|b| + 1..] == y
  {
  }

  /** The size of an artifact cuts exactly that artifact off the front of the payload. */
  lemma SliceParts(a: Bytes, more: Bytes)
    ensures Cut(|a|, |a + more|) == |a| && (a + more)[..|a|] == a && (a + more)[|a|..] == more
  {
  }

  /** The entries from the `i`-th on, with that entry's name split off. */
  lemma EntriesShape(names: seq<Bytes>, arts: seq<Bytes>, i: nat)
    requires |arts| == |names| && i < |names|
    ensures Entries(names, arts, i) + [CLOSE, COMMA] ==
            names[i] + [COMMA] + (Decimal(|arts[i]|) +
              (if i + 1 == |names| then [CLOSE, COMMA] else [COMMA] + Entries(names, arts, i + 1) + [CLOSE, COMMA]))
  {
    var b, d := names[i], Decimal(|arts[i]|);
    if i + 1 == |names| {
      Regroup(b + [COMMA], d, [CLOSE, COMMA]);
    } else {
      var e := Entries(names, arts, i + 1);
      Regroup(Item(names, arts, i) + [COMMA], e, [CLOSE, COMMA]);
      Regroup(Item(names, arts, i), [COMMA], e + [CLOSE, COMMA]);
      Regroup(b + [COMMA], d, [COMMA] + e + [CLOSE, COMMA]);
      assert [COMMA] + (e + [CLOSE, COMMA]) == [COMMA] + e + [CLOSE, COMMA];
    }
  }

  /** The remaining header after the `i`-th entry: nothing after the last one, the next entries otherwise. */
  function RestAfter(names: seq<Bytes>, arts: seq<Bytes>, i: nat): Bytes
    requires |arts| == |names| && i < |names|
  {
    if i + 1 == |names| then [] else Entries(names, arts, i + 1) + [CLOSE, COMMA]
  }

  /** What the loop meets in the header at the `i`-th entry: the name with no delimiter in it, a comma, the size, and the rest. */
  lemma EntryAt(names: seq<Bytes>, arts: seq<Bytes>, i: nat)
    requires |arts| == |names| && i < |names| && Distinct(names)
    ensures var header := Entries(names, arts, i) + [CLOSE, COMMA];
            && SizedEntry(header, names[i], |arts[i]|, |Decimal(|arts[i]|)|, RestAfter(names, arts, i))
            && forall k :: 0 <= k < |names[i]| ==> header[k] != OPEN && header[k] != CLOSE && header[k] != COMMA
  {
    var b := names[i];
    var tail := if i + 1 == |names| then [CLOSE, COMMA] else [COMMA] + Entries(names, arts, i + 1) + [CLOSE, COMMA];
    var next := if i + 1 == |names| then [] else Entries(names, arts, i + 1);
    var header := Entries(names, arts, i) + [CLOSE, COMMA];
    EntriesShape(names, arts, i);
    assert header == b + [COMMA] + (Decimal(|arts[i]|) + tail);
    if i + 1 < |names| {
      assert tail != [CLOSE, COMMA] by {
        assert |tail| > 2;
      }
    }
    forall k | 0 <= k < |b| ensures header[k] != OPEN && header[k] != CLOSE && header[k] != COMMA {
      assert header[k] == b[k];
      assert b[k] in b;
    }
    EntryFacts(header, b, arts[i], tail, next, RestAfter(names, arts, i));
  }

  /** One entry of the listing is read: its artifact is stored under its name. */
  lemma ScanEntry(names: seq<Bytes>, arts: seq<Bytes>, i: nat, folder: Bytes, acts: seq<Action>, ext: Bytes -> Outcome)
    requires |arts| == |names| && i < |names| && Distinct(names)
    ensures Scan(Entries(names, arts, i) + [CLOSE, COMMA], 0, Payload(arts, i), folder, Slots(names, arts, i), acts, ext) ==
            Scan(RestAfter(names, arts, i), 0, Payload(arts, i + 1), folder, Slots(names, arts, i + 1), acts, ext)
  {
    var header := Entries(names, arts, i) + [CLOSE, COMMA];
    var content, files := Payload(arts, i), Slots(names, arts, i);
    var q := |names[i]|;
    var rest := RestAfter(names, arts, i);
    assert q < |header| && header[q] == COMMA by {
      EntryAt(names, arts, i);
    }
    assert Scan(header, 0, content, folder, files, acts, ext) == Scan(header, q, content, folder, files, acts, ext) by {
      EntryAt(names, arts, i);
      ScanSkip(header, 0, q, content, folder, files, acts, ext);
    }
    assert EntryRead(header, q, content) == Read(names[i], arts[i], rest, Payload(arts, i + 1)) by {
      EntryAt(names, arts, i);
      assert content == arts[i] + Payload(arts, i + 1);
      ReadItem(header, names[i], arts[i], Payload(arts, i + 1), rest, |Decimal(|arts[i]|)|);
    }
    ScanComma(header, q, content, folder, files, acts, ext);
    StoreSlots(names, arts, i);
  }

  /** At a comma the entry is read, its slice stored, and the scan goes on over the rest. */
  lemma ScanComma(header: Bytes, hp: nat, content: Bytes, thisFolder: Bytes, files: seq<Slot>, acts: seq<Action>, ext: Bytes -> Outcome)
    requires hp < |header| && header[hp] == COMMA && EntryRead(header, hp, content).Read?
    ensures var e := EntryRead(header, hp, content);
            Scan(header, hp, content, thisFolder, files, acts, ext) ==
            Scan(e.rest, 0, e.content, thisFolder, Store(files, e.name, e.slice), acts, ext)
  {
  }

  /** The listing from the `i`-th entry on is read in order, each artifact stored under its name, and then the files are extracted. */
  lemma {:induction false} ScanEntries(names: seq<Bytes>, arts: seq<Bytes>, i: nat, folder: Bytes, acts: seq<Action>, ext: Bytes -> Outcome)
    requires |arts| == |names| && i < |names| && Distinct(names)
    ensures Scan(Entries(names, arts, i) + [CLOSE, COMMA], 0, Payload(arts, i), folder, Slots(names, arts, i), acts, ext) ==
            After(acts, Writes(Slots(names, arts, |names|), 0, folder, [], ext))
    decreases |names| - i
  {
    ScanEntry(names, arts, i, folder, acts, ext);
    if i + 1 < |names| {
      ScanEntries(names, arts, i + 1, folder, acts, ext);
    }
  }

  /** A `[` after a plain path: the folder is created and its listing is read by the recursive call. */
  lemma ScanOpen(folderPath: Bytes, y: Bytes, content: Bytes, ext: Bytes -> Outcome)
    requires Plain(folderPath)
    ensures var inner := FilesExtracted(y, content, folderPath, ext);
            var acts := [MakeDir(folderPath)] + inner.actions;
            FilesExtracted(folderPath + [OPEN] + y, content, [], ext) ==
            if inner.end.Returned? then Scan(inner.end.rest, 0, content, [], [], acts, ext) else FolderExtract.Run(acts, inner.end)
  {
    var header := folderPath + [OPEN] + y;
    forall k | 0 <= k < |folderPath| ensures header[k] != OPEN && header[k] != CLOSE && header[k] != COMMA {
      assert header[k] == folderPath[k];
      assert folderPath[k] in folderPath;
    }
    ScanSkip(header, 0, |folderPath|, content, [], [], [], ext);
    SplitFirstByte(folderPath, OPEN, y);
    assert header[|folderPath| + 1..] == y;
    assert [] + [MakeDir(folderPath)] == [MakeDir(folderPath)];
  }

  /** The header ends, or closes the outer listing: nothing is left to write there. */
  lemma ScanDone(rest: Bytes, content: Bytes, acts: seq<Action>, ext: Bytes -> Outcome)
    requires rest == [] || rest[0] == CLOSE
    ensures Scan(rest, 0, content, [], [], acts, ext) == FolderExtract.Run(acts, Returned(rest))
  {
    assert Writes([], 0, [], rest, ext) == FolderExtract.Run([], Returned(rest));
    assert acts + [] == acts;
  }

  /** The listing of a folder of files is read whole, and then its files are extracted. */
  lemma ScanListing(folderPath: Bytes, names: seq<Bytes>, arts: seq<Bytes>, ext: Bytes -> Outcome)
    requires |arts| == |names| && Distinct(names)
    ensures FilesExtracted(Listing(names, arts) + [CLOSE, COMMA], Payload(arts, 0), folderPath, ext) ==
            Writes(Slots(names, arts, |names|), 0, folderPath, Leftover(names), ext)
  {
    var w := Writes(Slots(names, arts, |names|), 0, folderPath, Leftover(names), ext);
    assert Slots(names, arts, 0) == [];
    if names != [] {
      ScanEntries(names, arts, 0, folderPath, [], ext);
      assert [] + w.actions == w.actions;
    } else {
      assert Listing(names, arts) + [CLOSE, COMMA] == [CLOSE, COMMA];
      assert w == FolderExtract.Run([], Returned([CLOSE, COMMA]));
    }
  }

  /** Reading a whole folder listing: the folder is created, then its files are extracted in listing order. */
  lemma ScanFolder(folderPath: Bytes, names: seq<Bytes>, arts: seq<Bytes>, ext: Bytes -> Outcome)
    requires |arts| == |names| && Plain(folderPath) && Distinct(names)
    ensures FilesExtracted(Header(folderPath, names, arts), Payload(arts, 0), [], ext) ==
            After([MakeDir(folderPath)], Writes(Slots(names, arts, |names|), 0, folderPath, Leftover(names), ext))
  {
    var y := Listing(names, arts) + [CLOSE, COMMA];
    var content := Payload(arts, 0);
    assert Header(folderPath, names, arts) == folderPath + [OPEN] + y;
    ScanOpen(folderPath, y, content, ext);
    ScanListing(folderPath, names, arts, ext);
    var w := Writes(Slots(names, arts, |names|), 0, folderPath, Leftover(names), ext);
    if w.end.Returned? {
      ScanDone(Leftover(names), content, [MakeDir(folderPath)] + w.actions, ext);
    }
  }

  /**
   * Extracting the archive of a folder that holds only files: the folder is
   * created, then each chosen file's artifact goes to the single-file
   * extractor under the file's base name, in listing order.
   */
  lemma FilesFolderExtract(folderPath: Bytes, es: seq<Entry>, m: Method, rs: int)
    requires AllFiles(es) && rs >= 1
    requires Listable(folderPath, Chosen(es, m))
    ensures var fs := Chosen(es, m);
            var names := BaseNames(fs);
            FolderExtracted(FolderArchive(folderPath, es, m, rs)) ==
            After([MakeDir(folderPath)], Writes(Slots(names, Artifacts(folderPath, fs, m, 1), |fs|), 0, folderPath, Leftover(names), Extracted))
  {
    var fs := Chosen(es, m);
    var arts := Artifacts(folderPath, fs, m, 1);
    var names := BaseNames(fs);
    FilesHeader(folderPath, es, m, rs);
    var header := Header(folderPath, names, arts);
    var data := Payload(arts, 0);
    CleanHeader(folderPath, names, arts);
    SplitCrlf(header, data);
    JoinSplit(data, CRLF);
    ScanFolder(folderPath, names, arts, Extracted);
  }

  /* ---------------------------------------------------------------------- */
  /* Writing the files back                                                  */

  /** The writes that restore the files from the `i`-th on: each one inside the folder, under its name. */
  function Restored(folder: Bytes, names: seq<Bytes>, outs: seq<Bytes>, i: nat): seq<Action>
    requires |outs| == |names| && i <= |names|
    decreases |names| - i
  {
    if i == |names| then []
    else [WriteFile(PathIn(folder, names[i]), outs[i])] + Restored(folder, names, outs, i + 1)
  }

  /** A slot whose artifact extracts to some contents is written inside the folder under its name. */
  lemma WritesStep(files: seq<Slot>, i: nat, folder: Bytes, rest: Bytes, out: Bytes, ext: Bytes -> Outcome)
    requires i < |files| && ext(files[i].data) == Data(out)
    ensures Writes(files, i, folder, rest, ext) ==
            After([WriteFile(PathIn(folder, files[i].name), out)], Writes(files, i + 1, folder, rest, ext))
  {
  }

  /** When every artifact extracts to some contents, the closing loop writes each of them under its name. */
  lemma {:induction false} WritesRestore(names: seq<Bytes>, arts: seq<Bytes>, outs: seq<Bytes>, i: nat, folder: Bytes, rest: Bytes,
                                         ext: Bytes -> Outcome)
    requires |arts| == |names| && |outs| == |names| && i <= |names|
    requires forall j :: 0 <= j < |names| ==> ext(arts[j]) == Data(outs[j])
    ensures Writes(Slots(names, arts, |names|), i, folder, rest, ext) == FolderExtract.Run(Restored(folder, names, outs, i), Returned(rest))
    decreases |names| - i
  {
    var files := Slots(names, arts, |names|);
    if i < |names| {
      assert files[i] == Slot(names[i], arts[i]);
      WritesStep(files, i, folder, rest, outs[i], ext);
      WritesRestore(names, arts, outs, i + 1, folder, rest, ext);
    }
  }

  /** The contents of the files of a listing, in order. */
  function Contents(fs: seq<Entry>): (r: seq<Bytes>)
    requires AllFiles(fs)
    ensures |r| == |fs|
  {
    seq(|fs|, j requires 0 <= j < |fs| => fs[j].contents)
  }

  /** The file type an artifact's header carries, when it fits on the header line. */
  predicate TypeFits(fileName: Bytes)
  {
    var ft := FileType(fileName, Extension(fileName));
    NoCrlf(ft) && IsUtf8(ft)
  }

  /** Every size is a whole number of one-byte units. */
  lemma {:induction false} FitsOne(n: nat)
    ensures Fits(n, 1)
  {
    if n > 0 {
      FitsOne(n - 1);
    }
  }

  /**
   * When each chosen file's artifact extracts to the file's contents, the
   * archive of a listable folder of files reads back whole: the folder is
   * created and each chosen file is written back under its base name.
   */
  lemma ChosenRoundTrip(folderPath: Bytes, es: seq<Entry>, m: Method, rs: int)
    requires AllFiles(es) && rs >= 1 && Listable(folderPath, Chosen(es, m))
    requires var fs := Chosen(es, m);
             var arts := Artifacts(folderPath, fs, m, 1);
             forall j :: 0 <= j < |fs| ==> Extracted(arts[j]) == Data(Contents(fs)[j])
    ensures var fs := Chosen(es, m);
            FolderExtracted(FolderArchive(folderPath, es, m, rs)) ==
            FolderExtract.Run([MakeDir(folderPath)] + Restored(folderPath, BaseNames(fs), Contents(fs), 0),
                              Returned(Leftover(BaseNames(fs))))
  {
    var fs := Chosen(es, m);
    FilesFolderExtract(folderPath, es, m, rs);
    WritesRestore(BaseNames(fs), Artifacts(folderPath, fs, m, 1), Contents(fs), 0, folderPath, Leftover(BaseNames(fs)), Extracted);
  }

  /** With repeat size 1, every file with no one-byte last chunk extracts back from its artifact. */
  lemma RleArtifactsExtract(folderPath: Bytes, fs: seq<Entry>)
    requires AllFiles(fs)
    requires forall j :: 0 <= j < |fs| ==>
               (fs[j].contents == [] || LastChunkLonger(fs[j].contents, 1)) && TypeFits(FullName(folderPath, fs[j]))
    ensures var arts := Artifacts(folderPath, fs, RLE, 1);
            forall j :: 0 <= j < |fs| ==> Extracted(arts[j]) == Data(Contents(fs)[j])
  {
    FitsOne(KILO);
    forall j | 0 <= j < |fs| ensures Extracted(Artifacts(folderPath, fs, RLE, 1)[j]) == Data(Contents(fs)[j]) {
      RleRoundTrip(FullName(folderPath, fs[j]), fs[j].contents, 1);
    }
  }

  /** Every non-empty file whose packed payload does not start with CRLF extracts back from its HUF artifact. */
  lemma HufArtifactsExtract(folderPath: Bytes, fs: seq<Entry>)
    requires AllFiles(fs)
    requires forall j :: 0 <= j < |fs| ==> fs[j].contents != []
    requires forall j :: 0 <= j < |fs| ==> !StartsWith(HufPayload(fs[j].contents), CRLF) && TypeFits(FullName(folderPath, fs[j]))
    ensures var arts := Artifacts(folderPath, fs, HUF, 1);
            forall j :: 0 <= j < |fs| ==> Extracted(arts[j]) == Data(Contents(fs)[j])
  {
    forall j | 0 <= j < |fs| ensures Extracted(Artifacts(folderPath, fs, HUF, 1)[j]) == Data(Contents(fs)[j]) {
      HufRoundTrip(FullName(folderPath, fs[j]), fs[j].contents);
    }
  }

  /**
   * A listable folder of files compressed with RLE reads back whole: the
   * folder is created and every file is written back unchanged under its
   * base name, when no file's last 1000-byte chunk is a single byte (the
   * files of such a folder are always compressed with repeat size 1).
   */
  lemma RleFolderRoundTrip(folderPath: Bytes, es: seq<Entry>, rs: int)
    requires AllFiles(es) && rs >= 1 && Listable(folderPath, es)
    requires forall j :: 0 <= j < |es| ==>
               (es[j].contents == [] || LastChunkLonger(es[j].contents, 1)) && TypeFits(FullName(folderPath, es[j]))
    ensures FolderExtracted(FolderArchive(folderPath, es, RLE, rs)) ==
            FolderExtract.Run([MakeDir(folderPath)] + Restored(folderPath, BaseNames(es), Contents(es), 0),
                              Returned(Leftover(BaseNames(es))))
  {
    assert Chosen(es, RLE) == es;
    RleArtifactsExtract(folderPath, es);
    ChosenRoundTrip(folderPath, es, RLE, rs);
  }

  /**
   * A listable folder compressed with HUF reads back the files HUF keeps
   * (neither empty nor over the size limit): the folder is created and each
   * of them is written back unchanged under its base name, when no packed
   * payload starts with CRLF.
   */
  lemma HufFolderRoundTrip(folderPath: Bytes, es: seq<Entry>, rs: int)
    requires AllFiles(es) && rs >= 1 && Listable(folderPath, HufKept(es))
    requires forall j :: 0 <= j < |HufKept(es)| ==>
               !StartsWith(HufPayload(HufKept(es)[j].contents), CRLF) && TypeFits(FullName(folderPath, HufKept(es)[j]))
    ensures var fs := HufKept(es);
            FolderExtracted(FolderArchive(folderPath, es, HUF, rs)) ==
            FolderExtract.Run([MakeDir(folderPath)] + Restored(folderPath, BaseNames(fs), Contents(fs), 0),
                              Returned(Leftover(BaseNames(fs))))
  {
    var fs := HufKept(es);
    assert Chosen(es, HUF) == fs;
    forall j | 0 <= j < |fs| ensures fs[j].contents != [] {
      assert HufKeeps(fs[j]);
    }
    HufArtifactsExtract(folderPath, fs);
    ChosenRoundTrip(folderPath, es, HUF, rs);
  }
}
