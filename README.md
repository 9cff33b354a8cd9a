# File compressor: codec engine and container format, in Dafny

A model of the core of a small Python archive tool. The tool has two
compression methods:

- `HUF`: Huffman coding over bytes.
- `RLE`: run-length coding over fixed-size units in 1000-byte chunks.

Each compressed file (an *artifact*) starts with a CRLF-separated header:
`METHOD,<type>`, then the repeat size or the serialised Huffman tree, then
the payload. Two container forms hold several artifacts: a folder archive
and a file bundle. Both start with one header line, `name[entry,size,...]`,
followed by CRLF and the artifacts concatenated in header order. The model
covers:

- the compressor;
- the extractor;
- the tree node and its serialisation;
- the format validators and header splicing of `main.py`.

Python `str` values are their UTF-8 bytes (`seq<byte>`). Every string
operation the core uses works on ASCII delimiters, so it has the same effect
on the encoding. `.decode()` is the strict UTF-8 predicate `IsUtf8`. `int()`
is `ParseInt`, which admits surrounding whitespace, a sign and single
underscores. Exceptions become `None`, `Raises` or `Raised` values of the
result types.

An endless loop cannot be a function result. The one the source can reach
is decoding with a tree whose root is a leaf; it becomes the value
`Loops`/`Hangs`.

The file system is passed in as values:

- a file's contents are a parameter;
- a directory is an `Entry` tree (`File` | `Dir`);
- the set of existing files is a `map` from path to contents;
- file writes and folder creation are returned as a list of `Action`s.

Modules follow the source files:

| module | file | what it holds |
|---|---|---|
| `Bytes` | bytes.dfy | the Python built-ins on bytes: `find`, `split`, `join`, `int()`, `str(n)`, UTF-8 validity |
| `TreeNode` | treenode.dfy | the tree datatypes, `tree_str` and the mutable `TreeNode` class with its setters |
| `Huffman` | huffman.dfy | counting, stable sorting, the in-place merge loop of `huf_tree`, and `create_huf_map` |
| `Packing` | packing.dfy | `create_huf_data`: bit strings, zero padding, MSB-first packing and the pad digit |
| `Rle` | rle.dfy | `compress_rle_kb` and the chunk loop of `compress_rle` |
| `Compress` | compressor.dfy | the `Compressor` class, the header (`compress_format`) and both artifacts |
| `Extract` | extractor.dfy | tree reading, bit decoding and `extractor` |
| `RleExtract` | rleextract.dfy | `extract_head_rle`, `extract_one_kb_rle` and the RLE window loop |
| `Folder` | folder.dfy | `compress_folder`, `compress_folder_only_files` and `line_of_files_in_folder` |
| `FolderExtract` | folderextract.dfy | `extract_files` (header cursor loop, recursion, the dict of slices) and `extract_folder` |
| `RoundTrip` | roundtrip.dfy | single-file round trips under sufficient conditions, and the failures proved |
| `FolderRoundTrip` | folderroundtrip.dfy | folder-archive round trips |
| `Archive` | archive.dfy | `main.py`: `is_compressed_file`, `is_compressed_folder(_header)`, `add_data_to_folder_data`, `check_args` and `compress_files_to_one_file` |

Loops in the source are `while` or `for` loops here too. Each loop is proved
against a specification function, and the properties are proved about those
functions.

Some round trips do not hold for every input. The model proves sufficient
conditions under which they hold, and proves two inputs on which they fail:

- **HUF, single file.** Extraction returns the original for every non-empty
  file whose type fits on the header line, unless the packed payload happens
  to begin with CR LF (`RoundTrip.HufRoundTrip`). When it does, line 2 is
  empty and the extractor returns no bytes (`RoundTrip.HufLeadingCrlf`), so
  for HUF the two lemmas together cover every non-empty file.
- **RLE, single file.** Extraction returns the original in three proved cases:
  - the file is empty;
  - the repeat size divides 1000 and the last 1000-byte chunk is longer than
    the repeat size (`RoundTrip.RleRoundTrip`);
  - the file is one chunk longer than the repeat size, for any repeat size
    (`RoundTrip.SingleChunkRoundTrip`).

  These conditions are sufficient, not necessary. One failure is proved:
  `RoundTrip.OneByteLost` shows that a one-byte file extracts to nothing.
  There, a chunk no longer than the repeat size is written with the count
  `1` and no comma, and the count line then loses its last byte.

  Two other ways an RLE round trip can break are described here but not
  proved as lemmas:
  - a last chunk no longer than the repeat size after full chunks, which
    hits the same encoder quirk as `OneByteLost`;
  - a repeat size that does not divide 1000 in a file of several chunks.
    The extractor's 1000-byte windows (extractor.py:146-156) then read a
    chunk's short last unit as a full one.

## Model

| member | source | states |
|---|---|---|
| `Bytes.JoinSplit` | Files_compressor_project/main.py:224-226 | joining the pieces of `split(sep)` with `sep` gives the original bytes back |
| `Bytes.ParseDecimal` | Files_compressor_project/extractor.py:369 | `int(str(n))` is `n`, so a size written by `str(len(...))` reads back as that length |
| `TreeNode.TreeStrAppends` | Files_compressor_project/treenode.py:34-44 | `tree_str` only appends: the result is the accumulator followed by the pre-order serialisation of the tree |
| `TreeNode.SerialNoCrlf` | Files_compressor_project/treenode.py:35-44 | a serialisation never holds CR LF (a leaf byte is always followed by `l`) and ends with `,`, so it fits on one header line |
| `TreeNode.TreeNode.constructor` | Files_compressor_project/treenode.py:5-8 | a new node holds the given data, left and right child |
| `TreeNode.TreeNode.SetLeft` | Files_compressor_project/treenode.py:14-16 | the left setter changes the left child only |
| `TreeNode.TreeNode.SetRight` | Files_compressor_project/treenode.py:22-24 | the right setter changes the right child only |
| `TreeNode.TreeNode.SetData` | Files_compressor_project/treenode.py:30-32 | the data setter changes the data only |
| `Huffman.CountEachChar` | Files_compressor_project/compressor.py:276-301 | the loop that inserts a new byte with count 1 or increments an old one builds exactly the table `Tally(data)` |
| `Huffman.BumpFacts` | Files_compressor_project/compressor.py:294-299 | one step of the table keeps keys distinct, adds one to that byte's count only, adds one to the total, and appends a key only when it is new |
| `Huffman.TallyCounts` | Files_compressor_project/compressor.py:289-301 | keys are distinct, each count is the byte's number of occurrences, and the counts sum to the data length |
| `Huffman.TallyKeys` | Files_compressor_project/compressor.py:289-301 | the keys are exactly the bytes that occur in the data, each with a count of at least 1 |
| `Huffman.TallyOrder` | Files_compressor_project/compressor.py:289-301 | the keys are listed in the order their bytes first occur in the data |
| `Huffman.TallyFacts` | Files_compressor_project/compressor.py:276-301 | all of the above about `count_each_char` at once |
| `Huffman.Insert` | Files_compressor_project/compressor.py:273 | inserting an entry adds exactly that entry (as a bag and as a set) |
| `Huffman.SortByCount` | Files_compressor_project/compressor.py:273 | the stable sort by count is a permutation of the table |
| `Huffman.SortOrdered` | Files_compressor_project/compressor.py:273 | a table in first-seen order is sorted to ascending count, with equal counts in first-seen order |
| `Huffman.SortKeeps` | Files_compressor_project/compressor.py:273 | sorting keeps the bag of bytes, the total count and the length |
| `Huffman.SortedCharsRepeatsFacts` | Files_compressor_project/compressor.py:251-273 | `sorted_chars_repeats` is ordered by count, then by first occurrence, and is a permutation of the frequency table |
| `Huffman.SortedFacts` | Files_compressor_project/compressor.py:251-273 | the sorted table holds each byte of the data once, with positive counts summing to the data length, and is empty only for empty data |
| `Huffman.FirstMinUnique` | Files_compressor_project/compressor.py:194-196 | with the strict `<`, the first index of the least weight is unique |
| `Huffman.ArgMin` | Files_compressor_project/compressor.py:189-196 | the chosen index is in range and is not the skipped one |
| `Huffman.ArgMinIsFirstMin` | Files_compressor_project/compressor.py:189-198 | `ArgMin` is the first index holding the least weight among the indices other than the skipped one |
| `Huffman.FindLowestIndex` | Files_compressor_project/compressor.py:176-198 | `find_lowest_index` returns the first index of the least weight |
| `Huffman.FindSecondLowestIndex` | Files_compressor_project/compressor.py:200-231 | `find_second_lowest_index`, starting at 0 or at 1 and stepping over the lowest, returns the first index of the least weight among the others |
| `Huffman.MergeInPlace` | Files_compressor_project/compressor.py:164-172 | writing the new node over the higher slot and deleting the lower slot performs the merge and leaves one tree fewer |
| `Huffman.MergeStep` | Files_compressor_project/compressor.py:159-172 | each round of the loop shrinks the list by exactly one |
| `Huffman.MergeRound` | Files_compressor_project/compressor.py:159-172 | a round merges the first index of the minimum and the first index of the minimum among the rest into a node of their summed weight; the lower index is the left child, the node takes the higher slot, and the others keep their order |
| `Huffman.MergeAtKeeps` | Files_compressor_project/compressor.py:164-172 | a merge keeps the total weight and the bag of leaf bytes |
| `Huffman.MergeAtWeighted` | Files_compressor_project/compressor.py:164-168 | a merge keeps every tree well weighted: an internal weight is the sum of its children's |
| `Huffman.MergeStepKeeps` | Files_compressor_project/compressor.py:159-172 | each round keeps the total weight, the leaf bytes and well-weightedness |
| `Huffman.HufTreeSpec` | Files_compressor_project/compressor.py:159-174 | the merge loop ends with exactly one tree, or none for an empty list |
| `Huffman.HufTreeSpecKeeps` | Files_compressor_project/compressor.py:159-174 | the whole loop keeps total weight, leaf bytes and well-weightedness |
| `Huffman.WrapLeaves` | Files_compressor_project/compressor.py:155-157 | the first loop wraps every entry, in order, as a leaf |
| `Huffman.LeavesKeep` | Files_compressor_project/compressor.py:155-157 | the leaves carry the table's total and its bag of bytes, and are well weighted when every count is positive |
| `Huffman.HufTree` | Files_compressor_project/compressor.py:143-174 | `huf_tree` wraps the entries and merges in place until one tree remains, as `HufTreeSpec` says |
| `Huffman.CreateHufTree` | Files_compressor_project/compressor.py:128-141 | `create_huf_tree` returns the specified root, or `None` where indexing the empty list raises |
| `Huffman.HufRootFacts` | Files_compressor_project/compressor.py:128-141 | the root exists exactly for non-empty data; its weight is the data length, it is well weighted, and each distinct byte of the data is at exactly one leaf |
| `Huffman.CreateHufMap` | Files_compressor_project/compressor.py:99-126 | the map's keys are the old keys plus the bytes at the tree's leaves |
| `Huffman.HufMapOther` | Files_compressor_project/compressor.py:118-126 | bytes not at the tree's leaves keep their old entries |
| `Huffman.HufMapCode` | Files_compressor_project/compressor.py:118-126 | every leaf byte is mapped to the path walked so far plus its root path (`1` per right step, `0` per left step) |
| `Huffman.CodesPrefixFree` | Files_compressor_project/compressor.py:99-126 | the codes of two different leaf bytes are never prefixes of one another |
| `Huffman.FinalMap` | Files_compressor_project/compressor.py:53-58 | the map `compress_huf` encodes with has a code for exactly the leaf bytes |
| `Huffman.FinalMapLeaf` | Files_compressor_project/compressor.py:56-58 | a single-symbol input gets the code `1` |
| `Huffman.NodeHasTwoSyms` | Files_compressor_project/compressor.py:56 | an internal node with distinct leaf bytes has at least two of them, so the single-entry override never fires on it |
| `Huffman.FinalMapNode` | Files_compressor_project/compressor.py:54 | in a tree with distinct leaf bytes, each byte's code is its root path |
| `Huffman.RootCoversData` | Files_compressor_project/compressor.py:88-89 | every byte of the data has a code, so the lookup in `create_huf_data` never fails |
| `Packing.ValueOfBitsOf` | Files_compressor_project/compressor.py:92-96 | reading back a numeral written from `x` in `n` bits gives `x` |
| `Packing.BitsOfValue` | Files_compressor_project/extractor.py:194-197 | writing the value of eight bits back as eight bits gives the same bits |
| `Packing.PadLen` | Files_compressor_project/compressor.py:90-91 | the pad is 1 to 8 zero bits and makes the length a multiple of 8; an aligned string gains a whole zero byte |
| `Packing.PackBits` | Files_compressor_project/compressor.py:92-96 | one byte per eight bits |
| `Packing.EncodeAll` | Files_compressor_project/compressor.py:86-89 | the first loop concatenates the codes of the bytes in order |
| `Packing.PackAll` | Files_compressor_project/compressor.py:92-96 | the second loop packs each group of eight bits into one byte, MSB first |
| `Packing.CreateHufData` | Files_compressor_project/compressor.py:75-97 | `create_huf_data` returns the packed padded codes followed by the pad digit |
| `Packing.HufDataShape` | Files_compressor_project/compressor.py:90-97 | the packed data is `bits // 8 + 1` bytes plus one trailing ASCII digit `8 - bits % 8` |
| `Compress.CheckInit` | Files_compressor_project/compressor.py:16-39 | the constructor succeeds exactly for a non-empty name not ending in '.', a readable file and the method `RLE` or `HUF` |
| `Compress.BaseName` | Files_compressor_project/compressor.py:426-427 | the last path component holds no '/' |
| `Compress.Extension` | Files_compressor_project/compressor.py:61 | what follows the last '.' holds no '.' |
| `Compress.FileType` | Files_compressor_project/compressor.py:450-451 | the type is `txt` exactly when the base name has no '.', the given type otherwise |
| `Compress.HeadTree` | Files_compressor_project/compressor.py:461-462 | a lone leaf is wrapped in a node of its weight with the leaf on both sides; a node is kept |
| `Compress.CompressFormat` | Files_compressor_project/compressor.py:435-468 | the header fails exactly for HUF without a tree |
| `Compress.CompressFormatHuf` | Files_compressor_project/compressor.py:460-466 | the HUF header is `HUF,<type>`, CRLF, the serialised header tree, CRLF |
| `Compress.RleArtifactNeedsRle` | Files_compressor_project/compressor.py:303-329 | `compress_rle` succeeds exactly on an RLE object, and then writes `RLE,<type>`, the repeat size, the count line without its last byte and the payload |
| `Compress.HufArtifactShape` | Files_compressor_project/compressor.py:41-72 | the HUF artifact exists exactly for non-empty data and is the header line, the tree line and the packed codes |
| `Compress.Stem` | Files_compressor_project/compressor.py:428-432 | the stem is the base name up to (not including) its first '.', or the whole base name when it has none; it holds no '.' and no '/' |
| `Compress.Compressor.constructor` | Files_compressor_project/compressor.py:31-34 | a new compressor has the name and method, and zero efficiency and size |
| `Compress.Compressor.IsPositiveCompress` | Files_compressor_project/compressor.py:390-410 | records efficiency = original size − artifact size (possibly negative) and returns whether the artifact is smaller; the size is untouched |
| `Compress.Compressor.CompressRle` | Files_compressor_project/compressor.py:303-329 | returns the RLE artifact and records its size and the efficiency; on failure nothing changes |
| `Compress.Compressor.CompressHuf` | Files_compressor_project/compressor.py:41-72 | returns the HUF artifact and records its size and the efficiency; on failure nothing changes |
| `Compress.Compressor.FileNameAndType` | Files_compressor_project/compressor.py:418-433 | the output name is '/', then the base name up to its first '.' (all of it when there is none), then `_<method>.txt` |
| `Rle.UnitsFacts` | Files_compressor_project/compressor.py:360-376 | the units the scan visits rebuild the chunk; each has 1 to `rs` bytes and all but the last exactly `rs` |
| `Rle.UnitsAt` | Files_compressor_project/compressor.py:365-375 | unit `m` starts at byte `m·rs` and exists exactly while that offset is inside the chunk |
| `Rle.ScanStep` | Files_compressor_project/compressor.py:367-377 | one scan step extends the open run, or closes it and opens a run for the next unit |
| `Rle.ScanGrow` | Files_compressor_project/compressor.py:367-370 | an equal unit below the cap grows the open run and keeps the loop invariant |
| `Rle.ScanClose` | Files_compressor_project/compressor.py:371-377 | otherwise `n,` and the unit are written and the invariant is kept |
| `Rle.CompressRleKb` | Files_compressor_project/compressor.py:332-379 | `compress_rle_kb` returns the chunk's payload and appends its counts to `sizes` |
| `Rle.RunsExpand` | Files_compressor_project/compressor.py:358-379 | repeating each run's unit by its count rebuilds the scanned units |
| `Rle.RunsCounts` | Files_compressor_project/compressor.py:367 | every count is between 1 and 10^9, and adjacent runs differ unless the first stopped at the cap |
| `Rle.RunsShape` | Files_compressor_project/compressor.py:360-377 | every run's unit is `rs` bytes except possibly the last, which holds the last unit |
| `Rle.RleKbFacts` | Files_compressor_project/compressor.py:358-379 | for a chunk longer than `repeat_size`: payload = the runs' units, one `n,` per run appended, units × counts rebuild the chunk, counts in 1..10^9, adjacent units differ below the cap |
| `Rle.RleStep` | Files_compressor_project/compressor.py:318-323 | the output of a non-empty input is its first chunk's output followed by the rest's |
| `Rle.ChunkLoopStep` | Files_compressor_project/compressor.py:318-323 | one turn of the chunk loop keeps its invariant |
| `Rle.CompressRleChunks` | Files_compressor_project/compressor.py:315-323 | the chunk loop produces the concatenated payloads and the threaded count line |
| `Rle.RleBodyRuns` | Files_compressor_project/compressor.py:315-325 | when `rs` divides 1000 and the last chunk is longer than `rs`, payload and count line are those of all chunks' runs |
| `Rle.ChunkRunsShape` | Files_compressor_project/compressor.py:318-323 | under the same conditions the runs of all chunks rebuild the input and have full units except possibly the last |
| `RleExtract.WindowUsed` | Files_compressor_project/extractor.py:244-257 | a window never consumes more counts than it is given |
| `RleExtract.WindowGo` | Files_compressor_project/extractor.py:246-255 | a step with bytes left after the unit keeps the loop invariant |
| `RleExtract.WindowEnd` | Files_compressor_project/extractor.py:252-255 | the step that empties the window ends the loop with everything accounted for |
| `RleExtract.ExtractOneKbRle` | Files_compressor_project/extractor.py:230-257 | each count repeats the next `repeat_size` bytes; the loop stops when the window or the counts run out, and the unused suffix of the counts is returned |
| `RleExtract.DecodeStep` | Files_compressor_project/extractor.py:150-156 | one window of the RLE loop keeps its invariant |
| `RleExtract.ExtractRleData` | Files_compressor_project/extractor.py:146-156 | the RLE loop decodes 1000-byte windows in turn, threading the counts |
| `RleExtract.WindowRuns` | Files_compressor_project/extractor.py:246-257 | a window made of shaped runs' units decodes to what the runs stand for and consumes one count per run |
| `RleExtract.DecodeRuns` | Files_compressor_project/extractor.py:146-156 | when `rs` divides 1000, the payload of shaped runs decodes with their counts to what they stand for |
| `RleExtract.ParseAllMeaning` | Files_compressor_project/extractor.py:302-304 | the counts are produced exactly when every word is an `int`, and are their values in order |
| `RleExtract.ParseAllNone` | Files_compressor_project/extractor.py:303-304 | once a prefix fails to parse, the whole list fails |
| `RleExtract.ParseSizes` | Files_compressor_project/extractor.py:302-304 | the loop over the comma-separated counts computes `ParseAll` |
| `RleExtract.ExtractHeadRle` | Files_compressor_project/extractor.py:292-308 | `extract_head_rle` returns the repeat size, the counts and the rejoined payload, or fails where it raises |
| `RleExtract.CountTextWords` | Files_compressor_project/compressor.py:373 | the count line is the decimal counts joined by commas, plus a final comma |
| `RleExtract.CountLineParses` | Files_compressor_project/extractor.py:298-304 | the count line minus its last comma decodes, and parses back to the counts |
| `Extract.NormClean` | Files_compressor_project/extractor.py:204-210 | after the loop no token is empty or a lone `l`, and the list did not grow |
| `Extract.NormStep` | Files_compressor_project/extractor.py:204-210 | one turn of the in-place loop: an empty token is deleted with the index stepping back, `l` becomes `,l`, others are kept |
| `Extract.NormalizeTokens` | Files_compressor_project/extractor.py:202-210 | the loop of `extract_huf_tree` computes the normalised token list |
| `Extract.RecursiveExtract` | Files_compressor_project/extractor.py:214-227 | a successful read leaves a strict suffix of the tokens |
| `Extract.ExtractHufTree` | Files_compressor_project/extractor.py:200-211 | `extract_huf_tree` returns the tree read from the normalised tokens |
| `Extract.BitsFromBytes` | Files_compressor_project/extractor.py:194-197 | eight bits per byte |
| `Extract.TrimBits` | Files_compressor_project/extractor.py:173 | `bits[:-k]` drops the last `k` bits, and keeps nothing for `k == 0` |
| `Extract.ReadDataFromTree` | Files_compressor_project/extractor.py:182-191 | a read leaves a suffix of the bits; from an internal node it consumes at least one bit; at a leaf it consumes none and yields the leaf byte |
| `Extract.ExtractDataHuf` | Files_compressor_project/extractor.py:170-179 | `extract_data_huf` reads the pad digit, unpacks, trims and decodes, as `DecodeHuf` specifies |
| `Extract.Extractor` | Files_compressor_project/extractor.py:108-167 | `extractor`: an error for fewer than two lines; nothing for an empty line 2 or an unknown tag; otherwise the RLE or HUF branch |
| `RoundTrip.SerialText` | Files_compressor_project/treenode.py:34-44 | a serialisation is its pre-order tokens, each followed by a comma |
| `RoundTrip.TokensGood` | Files_compressor_project/treenode.py:37-41 | an internal token is decimal digits and a leaf token is one byte and `l`, so every token survives the split on commas |
| `RoundTrip.SplitCommaLeaf` | Files_compressor_project/extractor.py:205-208 | the leaf token of ',' splits into an empty piece and `l`, which the loop turns back into `,l` |
| `RoundTrip.NormSplitText` | Files_compressor_project/extractor.py:202-210 | splitting the serialised tokens on commas and normalising gives the tokens back |
| `RoundTrip.ExtractTokens` | Files_compressor_project/extractor.py:214-227 | the reader takes one tree's tokens off the front and leaves what follows |
| `RoundTrip.TreeRoundTrip` | Files_compressor_project/extractor.py:200-227 | `extract_huf_tree(tree_str(t))` rebuilds `t` for every leaf byte, ',' included |
| `RoundTrip.UnpackPack` | Files_compressor_project/extractor.py:194-197 | unpacking undoes the MSB-first packing |
| `RoundTrip.PayloadTrailer` | Files_compressor_project/compressor.py:90-97 | the packed payload is the packed padded bits followed by one ASCII digit, the pad length |
| `RoundTrip.TrailerParses` | Files_compressor_project/extractor.py:171 | the trailing digit decodes and parses back as the pad length |
| `RoundTrip.TrimPadded` | Files_compressor_project/extractor.py:173 | dropping the pad length of bits removes exactly the padding |
| `RoundTrip.PayloadBits` | Files_compressor_project/extractor.py:171-173 | the decoder recovers exactly the code bits from a packed payload |
| `RoundTrip.ReadCode` | Files_compressor_project/extractor.py:182-191 | walking a leaf's root path reaches that leaf and consumes exactly the path |
| `RoundTrip.DecodeOne` | Files_compressor_project/extractor.py:175-177 | one step of the decoding loop reads back one whole code |
| `RoundTrip.DecodeEncoded` | Files_compressor_project/extractor.py:175-177 | decoding the concatenated codes gives the data back |
| `RoundTrip.FinalMapDecodes` | Files_compressor_project/compressor.py:53-58 | every code of the final map leads through the header tree to its own byte and is non-empty |
| `RoundTrip.HeaderLine` | Files_compressor_project/compressor.py:456-464 | the first line `METHOD,<type>` is one UTF-8 line starting with the method |
| `RoundTrip.SplitHeadEmpty` | Files_compressor_project/extractor.py:158-159 | line 2 is empty exactly when the payload is empty or starts with CR LF |
| `RoundTrip.ExtractHufLines` | Files_compressor_project/extractor.py:157-165 | what `extractor` does with an artifact whose first line has the HUF tag |
| `RoundTrip.PayloadDecodes` | Files_compressor_project/extractor.py:170-179 | the packed payload decodes through the header tree to the data |
| `RoundTrip.HufRoundTrip` | Files_compressor_project/extractor.py:157-165 | a HUF artifact of non-empty data extracts back to it, when the type fits and the payload does not begin with CR LF |
| `RoundTrip.HufLeadingCrlf` | Files_compressor_project/extractor.py:158-159 | when the payload begins with CR LF, extraction yields no bytes |
| `RoundTrip.EmptyThirdLine` | Files_compressor_project/extractor.py:128-131 | any artifact whose line 2 is empty extracts to nothing |
| `RoundTrip.CountLineOneLine` | Files_compressor_project/compressor.py:324 | the count line written is one non-empty line |
| `RoundTrip.RleHeaderLine` | Files_compressor_project/compressor.py:454-458 | the RLE first line is one UTF-8 line starting with `RLE` |
| `RoundTrip.ExtractRleLines` | Files_compressor_project/extractor.py:128-156 | what `extractor` does with an artifact whose first line has the RLE tag and whose line 2 is not empty |
| `RoundTrip.HeadOfRleLines` | Files_compressor_project/extractor.py:292-308 | the header read from the encoder's lines is the repeat size, the run counts and the payload |
| `RoundTrip.RleRoundTrip` | Files_compressor_project/extractor.py:128-156 | an RLE artifact extracts back to the file when `rs` divides 1000 and the last chunk is longer than `rs`, or the file is empty |
| `RoundTrip.SingleChunkRoundTrip` | Files_compressor_project/extractor.py:146-156 | a file of one chunk (at most 1000 bytes) longer than the repeat size extracts back whole, whatever the repeat size |
| `RoundTrip.OneByteLost` | Files_compressor_project/compressor.py:355-356 | a one-byte file with repeat size 1 extracts to nothing: the verbatim branch adds `1` without a comma and line 324 drops it |
| `Folder.LineOfFilesInFolder` | Files_compressor_project/compressor.py:635-652 | the line is the folder path, '[', then every item followed by a comma |
| `Folder.FilesOf` | Files_compressor_project/compressor.py:669-670 | only files are kept, and an all-files listing is kept whole |
| `Folder.HufKept` | Files_compressor_project/compressor.py:671-682 | HUF keeps, in order, only files neither empty nor over 3·10^6 bytes |
| `Folder.Chosen` | Files_compressor_project/compressor.py:669-682 | the chosen entries are files, and never empty ones for HUF |
| `Folder.Artifacts` | Files_compressor_project/compressor.py:699-705 | one artifact per chosen file |
| `Folder.KeepForHuf` | Files_compressor_project/compressor.py:671-682 | the filtering loop computes `HufKept` |
| `Folder.CompressOne` | Files_compressor_project/compressor.py:692-705 | a fresh compressor returns the file's artifact, its size and the efficiency |
| `Folder.CompressAt` | Files_compressor_project/compressor.py:692-705 | the `i`-th file compressed is the `i`-th artifact |
| `Folder.PackFailed` | Files_compressor_project/compressor.py:693-697 | a file whose constructor raises ends the loop with `name(error)` and `-1` |
| `Folder.PackAdvanced` | Files_compressor_project/compressor.py:699-709 | a compressed file adds its base name and artifact size to the listing, its artifact to the data and its efficiency to the sum |
| `Folder.PackFinished` | Files_compressor_project/compressor.py:690-709 | when every file is done, what the loop gathered is the whole |
| `Folder.CompressFiles` | Files_compressor_project/compressor.py:687-709 | the compressing loop gathers the listing, the data and the efficiency of `FilesPack` |
| `Folder.CompressFolderOnlyFiles` | Files_compressor_project/compressor.py:655-712 | `compress_folder_only_files` returns the path-and-listing line, the artifacts and the efficiency |
| `Folder.OnlyFilesHeader` | Files_compressor_project/compressor.py:647-652 | the listing line is never empty, so `[-1]` at line 575 is defined |
| `Folder.OnlyFilesIn` | Files_compressor_project/compressor.py:564-567 | the flag is true exactly when every entry is a file |
| `Folder.CloseLine` | Files_compressor_project/compressor.py:575-577 | one trailing comma is dropped, then the closer appended |
| `Folder.CompressSubfolders` | Files_compressor_project/compressor.py:587-592 | each subfolder is compressed in listing order with the default repeat size, headers and payloads appended |
| `Folder.CompressFolder` | Files_compressor_project/compressor.py:546-599 | `compress_folder`: an all-files folder closes with `],` and repeat size 1; otherwise its files, then its subfolders, then `]` |
| `FolderExtract.StoreLookup` | Files_compressor_project/extractor.py:369 | after `files[name] = data` the name has the new data and every other name keeps its own |
| `FolderExtract.StoreNames` | Files_compressor_project/extractor.py:369 | a new name is appended; an existing one keeps its place, as in a Python dict |
| `FolderExtract.Cut` | Files_compressor_project/extractor.py:369-370 | Python's cut point for `s[:n]` never leaves the sequence, for negative `n` too |
| `FolderExtract.NumberEnd` | Files_compressor_project/extractor.py:365-367 | the found position is a ',' or ']' at or after the start |
| `FolderExtract.NumberEndFirst` | Files_compressor_project/extractor.py:365-367 | no ',' or ']' lies before the found position |
| `FolderExtract.ReadSize` | Files_compressor_project/extractor.py:363-367 | the size loop collects the bytes up to the first ',' or ']' |
| `FolderExtract.EntryRead` | Files_compressor_project/extractor.py:358-375 | reading an entry always shortens the header |
| `FolderExtract.ReadEntry` | Files_compressor_project/extractor.py:358-375 | the `,` branch reads the name, the size and its slice of the payload, as `EntryRead` says |
| `FolderExtract.Writes` | Files_compressor_project/extractor.py:380-386 | the closing loop, when it returns, returns the header left over |
| `FolderExtract.WriteFiles` | Files_compressor_project/extractor.py:380-384 | the closing loop extracts each slice and writes the bytes it yields, in dict order |
| `FolderExtract.Scan` | Files_compressor_project/extractor.py:348-376 | the header cursor loop never returns more header than it was given |
| `FolderExtract.FilesExtracted` | Files_compressor_project/extractor.py:330-386 | `extract_files` never returns more header than it was given |
| `FolderExtract.ExtractFiles` | Files_compressor_project/extractor.py:330-386 | the cursor loop, the recursion into folders and the closing loop compute `FilesExtracted` |
| `FolderExtract.ExtractFolder` | Files_compressor_project/extractor.py:311-327 | `extract_folder` takes the first line as the header and the rest as the payload |
| `FolderRoundTrip.PackOfFiles` | Files_compressor_project/compressor.py:690-709 | with no refused name, the listing is each base name and artifact size, and the data is the artifacts in order |
| `FolderRoundTrip.TextOfItems` | Files_compressor_project/compressor.py:650-651 | the items, each followed by a comma, are the comma-separated entries plus one comma |
| `FolderRoundTrip.FilesHeader` | Files_compressor_project/compressor.py:570-578 | an all-files folder's header is `path[name,size,...],` and its data is the artifacts in listing order |
| `FolderRoundTrip.CleanHeader` | Files_compressor_project/compressor.py:647-652 | for plain names the header is one valid UTF-8 line |
| `FolderRoundTrip.StoreSlots` | Files_compressor_project/extractor.py:369 | with distinct names each entry goes to the end of the dict |
| `FolderRoundTrip.SizeValue` | Files_compressor_project/extractor.py:369 | the size digits parse back to the artifact length |
| `FolderRoundTrip.ReadItem` | Files_compressor_project/extractor.py:358-375 | reading `name,size` yields the name, the artifact the size cuts from the payload, and the rest of header and payload |
| `FolderRoundTrip.ScanComma` | Files_compressor_project/extractor.py:358-376 | at a comma the entry's slice is stored and the scan goes on over the rest |
| `FolderRoundTrip.ScanEntry` | Files_compressor_project/extractor.py:358-376 | one entry of the listing is read and its artifact stored under its name |
| `FolderRoundTrip.ScanEntries` | Files_compressor_project/extractor.py:348-384 | the listing is read in order, then the files are extracted |
| `FolderRoundTrip.ScanOpen` | Files_compressor_project/extractor.py:351-357 | a `[` creates the folder and the recursive call reads its listing |
| `FolderRoundTrip.ScanDone` | Files_compressor_project/extractor.py:348-350 | an empty header or a `]` ends the loop with nothing more to write |
| `FolderRoundTrip.ScanListing` | Files_compressor_project/extractor.py:330-386 | a folder's listing is read whole and its files are extracted |
| `FolderRoundTrip.ScanFolder` | Files_compressor_project/extractor.py:330-386 | a whole folder header: create the folder, then extract its files in listing order |
| `FolderRoundTrip.FilesFolderExtract` | Files_compressor_project/extractor.py:311-327 | extracting an all-files folder archive hands each chosen file's artifact to the single-file extractor under its base name, in order |
| `FolderRoundTrip.WritesStep` | Files_compressor_project/extractor.py:380-384 | a slot that extracts to bytes is written inside the folder under its name |
| `FolderRoundTrip.WritesRestore` | Files_compressor_project/extractor.py:380-384 | when every artifact extracts, the closing loop writes each file's contents under its name |
| `FolderRoundTrip.ChosenRoundTrip` | Files_compressor_project/extractor.py:311-386 | when each chosen artifact extracts to its file, the folder archive restores every chosen file under its base name |
| `FolderRoundTrip.RleArtifactsExtract` | Files_compressor_project/compressor.py:700 | with repeat size 1, each file whose last chunk is longer than one byte (or which is empty) extracts back from its artifact |
| `FolderRoundTrip.HufArtifactsExtract` | Files_compressor_project/compressor.py:704 | each non-empty file whose payload does not begin with CR LF extracts back from its artifact |
| `FolderRoundTrip.RleFolderRoundTrip` | Files_compressor_project/compressor.py:570-578 | an RLE folder archive of a listable all-files folder restores every file, under the conditions of the single-file round trip |
| `FolderRoundTrip.HufFolderRoundTrip` | Files_compressor_project/compressor.py:671-682 | a HUF folder archive restores exactly the files HUF keeps |
| `Archive.Tag` | Files_compressor_project/main.py:33 | the tag is the first three bytes of the line |
| `Archive.IsCompressedFile` | Files_compressor_project/main.py:15-59 | `is_compressed_file` returns the verdict `FileVerdict` specifies, raising where indexing line 2 raises |
| `Archive.SplitCommaTwo` | Files_compressor_project/main.py:54-55 | a line with a comma splits into at least two pieces |
| `Archive.FirstLineChecks` | Files_compressor_project/main.py:33-38 | an artifact's first line passes the tag, length and comma checks |
| `Archive.HufLinesAccepted` | Files_compressor_project/main.py:26-57 | a `HUF,…` first line and a tree line holding a comma are accepted |
| `Archive.HufArtifactIsCompressedFile` | Files_compressor_project/main.py:53-57 | every HUF artifact passes `is_compressed_file` |
| `Archive.RepeatLine` | Files_compressor_project/main.py:46-51 | the repeat-size line is one line that `int()` reads |
| `Archive.RunsCountsLine` | Files_compressor_project/main.py:43-51 | the count line is one line whose every comma token is a number |
| `Archive.RleLinesAccepted` | Files_compressor_project/main.py:41-52 | RLE lines whose repeat size and counts are numbers are accepted |
| `Archive.RleArtifactIsCompressedFile` | Files_compressor_project/main.py:41-52 | an RLE artifact passes `is_compressed_file` when the file is empty or the round-trip conditions hold |
| `Archive.ElementsStep` | Files_compressor_project/main.py:129-137 | one element of the inner loop: a name is skipped, a size is added |
| `Archive.SegmentsStep` | Files_compressor_project/main.py:124-137 | one segment adds its elements' sum to the later segments' |
| `Archive.SegmentsAdvance` | Files_compressor_project/main.py:124-137 | one turn of the outer loop adds the segment's sum, or the header is refused |
| `Archive.HeaderCheckedSum` | Files_compressor_project/main.py:103-139 | a header passing the decoding and bracket checks declares what its segments sum to |
| `Archive.SumElements` | Files_compressor_project/main.py:125-137 | the inner loop succeeds exactly when every size element is an `int`, and adds their sum |
| `Archive.IsCompressedFolderHeader` | Files_compressor_project/main.py:92-139 | `is_compressed_folder_header` returns `HeaderChecked`: (False, 0) unless the header decodes, has ≥ 1 '[' and as many ']', and every second element of each segment is an `int`; then (True, sum) |
| `Archive.LinesOf` | Files_compressor_project/main.py:73-83 | line 0 of the CRLF split is the first line, and the other lines rejoined are everything after the first CRLF |
| `Archive.FolderVerdictMeaning` | Files_compressor_project/main.py:62-89 | `is_compressed_folder` returns "" exactly when the header is valid and declares the byte length after the first CRLF; otherwise one of its two messages |
| `Archive.InsertAfterFirstLineMeaning` | Files_compressor_project/main.py:233-238 | the data lands right after the first line |
| `Archive.SpliceAt` | Files_compressor_project/main.py:224-230 | the insert lands right after the first `[` |
| `Archive.SpliceInFirstLine` | Files_compressor_project/main.py:224-230 | when the first line holds a `[`, the splice stays inside the first line |
| `Archive.AddDataShape` | Files_compressor_project/main.py:208-240 | `add_data_to_folder_data` inserts `name,len,` right after the first `[` and the new data right after the first line; all other bytes are unchanged |
| `Archive.EntryFacts` | Files_compressor_project/main.py:229-230 | the insert for a plain name is UTF-8 and holds no bracket or CR |
| `Archive.SplicedSegments` | Files_compressor_project/main.py:121-125 | after the splice the insert joins the first segment and the other segments are unchanged |
| `Archive.EntrySum` | Files_compressor_project/main.py:125-137 | the first segment then sums to the new size plus its old sum |
| `Archive.SplicedSum` | Files_compressor_project/main.py:121-139 | the segments' sum grows by the new size |
| `Archive.SplicedHeaderAt` | Files_compressor_project/main.py:224-230 | the spliced header stays valid and declares the new size more |
| `Archive.SplicedHeader` | Files_compressor_project/main.py:224-230 | the same, for the header spliced at its first `[` |
| `Archive.AddDataLines` | Files_compressor_project/main.py:208-240 | after adding, the first line declares the new data as well, and the data follows it |
| `Archive.FolderFromLines` | Files_compressor_project/main.py:73-89 | a first line declaring exactly the bytes after it passes `is_compressed_folder` |
| `Archive.AddDataKeepsFolder` | Files_compressor_project/main.py:208-240 | adding a file with a plain name to a valid folder archive gives a valid one whose header declares the new data as well |
| `Archive.CheckPair` | Files_compressor_project/main.py:346-369 | the loop body's checks return the first problem with one name and its method |
| `Archive.PairsErrorStep` | Files_compressor_project/main.py:344-369 | one turn of the loop: this pair's problem, or else the later pairs' |
| `Archive.CheckArgs` | Files_compressor_project/main.py:322-370 | `check_args` returns `ArgsError`: the count check, the folder-name check, then the first pair problem |
| `Archive.PairsErrorNext` | Files_compressor_project/main.py:344-369 | no problem from a pair on means none in it and none after it |
| `Archive.PairsNoneAllOk` | Files_compressor_project/main.py:344-370 | no problem from argument `i` on: every pair from there passes |
| `Archive.AllOkPairsNone` | Files_compressor_project/main.py:344-370 | every pair from argument `i` on passes: no problem from there |
| `Archive.PairsErrorNone` | Files_compressor_project/main.py:344-370 | no problem exactly when every pair passes |
| `Archive.ArgsAccepted` | Files_compressor_project/main.py:322-370 | `check_args` accepts exactly an odd count ≥ 3, a folder name not starting with '.', and pairs that all pass: non-empty existing name, method `RLE`/`HUF`, RLE suffix an `int` ≥ 1 |
| `Archive.ArgPath` | Files_compressor_project/main.py:285 | every backslash becomes a slash, every other byte is kept, and the length is kept |
| `Archive.OutputStem` | Files_compressor_project/main.py:272-276 | the output name ends in `.txt`, and its stem is the folder name without that ending |
| `Archive.RepeatOf` | Files_compressor_project/main.py:360-369 | an accepted RLE method's suffix parses to a repeat size ≥ 1 |
| `Archive.Pieces` | Files_compressor_project/main.py:283-286 | one piece per argument pair |
| `Archive.PiecesAre` | Files_compressor_project/main.py:283-312 | `Pieces` holds each pair compressed on its own |
| `Archive.Collect` | Files_compressor_project/main.py:283-312 | gathering keeps names and artifacts paired |
| `Archive.ListingSnoc` | Files_compressor_project/main.py:299-302 | one more file adds `,name,size` to the listing, without the comma for the first |
| `Archive.HeaderStep` | Files_compressor_project/main.py:299-302 | replacing the header's last `]` by the new entry and `]` gives the header of one more file |
| `Archive.CompressWith` | Files_compressor_project/main.py:290-308 | a fresh compressor for the method gives the base name, the artifact and the efficiency, or raises on an empty HUF file |
| `Archive.CompressPair` | Files_compressor_project/main.py:285-312 | the loop body on an accepted pair: the constructor's message, or the compressed piece |
| `Archive.CompressAt` | Files_compressor_project/main.py:283-286 | the pair at arguments `2k+1`, `2k+2` compressed is the `k`-th piece |
| `Archive.PackStart` | Files_compressor_project/main.py:279-280 | before the loop the header is `stem[]` and the data is empty |
| `Archive.PackAdvance` | Files_compressor_project/main.py:298-303 | one more compressed pair grows the header by its entry and the data by its artifact |
| `Archive.PackStopped` | Files_compressor_project/main.py:289-292 | a pair that stops ends the function with that pair's message or exception |
| `Archive.PackDone` | Files_compressor_project/main.py:315 | at the end the archive is the header, CRLF and the artifacts |
| `Archive.PackPairs` | Files_compressor_project/main.py:283-315 | the loop builds `stem[f1,n1,f2,n2,...]` and the data in the same order, or stops at the first failing pair |
| `Archive.FilesToOneAccepted` | Files_compressor_project/main.py:264-283 | accepted arguments are archived pair by pair under `OutputName(args[0])` |
| `Archive.CompressFilesToOneFile` | Files_compressor_project/main.py:243-319 | `compress_files_to_one_file`: `check_args`, the `.txt` output name and its stem, then the loop over the pairs |

## Left out

- `user_interface.py` (interactive input, printing, sleeping, retries) is not part of this model.
- `MapReduceFramework.cpp` (threads, mutexes, atomics, a barrier) is not part of this model.
- `test_main.py` is not part of this model.
- The `Files_compressor_project_python/` copies of `compressor.py`, `extractor.py` and `treenode.py` are modelled through their identical twins in `Files_compressor_project/`. Every citation above holds for both copies, line for line.
- File-system plumbing is passed in as values: `read_binary_file`, `write_binary_file`, `create_folder`, `check_path`, `os.listdir`, `os.path.isfile` and `os.path.getsize`. The directory order is the order of the `Entry` sequence; `os.listdir` order is unspecified.
- `main_compressor`, `main_extractor`, `extractor_format_check`, `add_file_to_exist`, `main()` with argparse, and the timing and efficiency printouts are not modelled. They are I/O and user-interface wrappers around the modelled core. `add_file_to_exist` calls `is_compressed_folder` at main.py:198 and treats its error message as truthy, which inverts the check. Only the splice it then performs (`add_data_to_folder_data`) is modelled.
- `bitstring.BitArray` is a foreign library. `Extract.BitsFromBytes` stands in for it: eight bits per byte, most significant first.
- `Compress.Compressor.CompressRle`: requires a repeat size of at least 1 for non-empty data. With a repeat size below 1, `compress_rle_kb` never advances its counter and loops forever; termination cannot be modelled as a result.
- `Rle.CompressRleKb`: requires a repeat size of at least 1, for the same reason.
- `Bytes.ParseInt`: models `int()` on ASCII text only. Non-ASCII Unicode digits and whitespace, which Python's `int()` also accepts, are not modelled. The core only parses text it wrote itself or rejects. CPython's limit on the length of a decimal string is not modelled either: since Python 3.11, `int()` raises ValueError on more than 4300 digits, while `ParseInt` reads numerals of any length. The affected callers are `check_args`' repeat-size check (main.py:363-366), `extract_head_rle` (extractor.py:296-302), `is_compressed_file` (main.py:46-51) and the size parse of `extract_files` (extractor.py:369); on a numeral longer than 4300 digits the model accepts what the source rejects. The round trips are unaffected: the counts written are at most 10^9 and the sizes are file lengths, far below 4300 digits.
- `Extract.DecodeHuf`: decoding with a tree whose root is a leaf never ends in the source, because each read consumes no bits. The model returns the value `Loops`, which `extractor` and `extract_files` turn into `Hangs`/`Hung`. A HUF artifact never has such a root, since a lone leaf is wrapped in a node by `compress_format`.
- `node_or_tuple_value` is the `weight` field of the tree datatype. Its tuple branch (returning 0) cannot be reached, because `huf_tree` wraps every entry as a leaf before the first lookup.
- The `TreeNode` class keeps its setters. Trees built and read by the core are the immutable datatypes `Tree` (compression side) and `ReadTree` (extraction side). The core never mutates a node after construction, so aliasing is not modelled.
- `get_efficiency` and `get_size` are reads of the `compressionEfficiency` and `size` fields.
- The RLE size filter in `compress_folder_only_files` (compressor.py:676-678) sits inside the HUF-only branch and never fires. The model omits it, which matches the source's behaviour.
- `compress_files_to_one_file`'s check that every argument is a `str` (main.py:258-261) always passes on a sequence of byte strings and is not modelled.
- `Archive.SumElements` and `Archive.CheckPair` are the bodies of inner loops of `is_compressed_folder_header` and `check_args`, extracted as methods so that each loop is verified on its own.
- `Extract.RecursiveExtract`, `Extract.ReadDataFromTree`, `FolderExtract.Scan`: Python's recursion limit (about 1000 frames) is not modelled.
  - In the source, a tree line nested deeper than that makes `recursive_extract_huf_tree` (extractor.py:214-227) raise RecursionError. `extractor` then returns the "not in a compressed format" message with that cause (extractor.py:164-165).
  - `read_data_from_tree` (extractor.py:182-191) raises the same way on a code path that long.
  - A folder header with about 1000 nested `[` makes the recursion of `extract_files` (extractor.py:356) raise.
  - The model parses and decodes at any depth. The round-trip lemmas are unaffected: a tree the compressor builds is at most 255 levels deep.
- Python exceptions are values: `None`, `Raises`, `Raised` or a message, as the caller catches them. The text of a CPython exception is never modelled, including where the source returns it inside a message.
- `Extract.Extractor`, `RoundTrip.ExtractHufLines`: when the HUF branch catches an exception, the source returns `"file is not in a compressed format: {e}"` (extractor.py:164-165). The model returns only the fixed prefix `file is not in a compressed format: `. The CPython exception text after it (for example `invalid literal for int() with base 10: 'b'`) is not modelled.
