/**
 * The run-length encoder of `Compressor`: the file is cut into chunks of
 * `KILO` bytes; each chunk is scanned in units of `repeat_size` bytes, each
 * run of equal units is written once to the payload and its length is written
 * as `n,` to the count line.
 */
module Rle {
  import opened Bytes

  const KILO: nat := 1000
  /** The guard `counter < 10 ** 9` lets a run reach exactly this many units. */
  const CAP: nat := 1000000000

  /** Python's `s[i:j]` for `0 <= i <= j`: both ends are clamped to the length. */
  function Slice(s: Bytes, i: nat, j: nat): (r: Bytes)
    requires i <= j
    ensures |r| <= j - i
  {
    var a := if i < |s| then i else |s|;
    var b := if j < |s| then j else |s|;
    s[a..b]
  }

  /** Python's `s[i:]` for `i >= 0`. */
  function Drop(s: Bytes, i: nat): Bytes
  {
    if i < |s| then s[i..] else []
  }

  /** Python's `s[:-1]`, which is empty for an empty `s`. */
  function DropLast(s: Bytes): Bytes
  {
    if s == [] then [] else s[..|s| - 1]
  }

  datatype Run = Run(unit: Bytes, count: nat)

  /** The units the scan visits: pieces of `rs` bytes, the last one possibly shorter. */
  function Units(kb: Bytes, rs: nat): seq<Bytes>
    requires rs >= 1
    decreases |kb|
  {
    if kb == [] then []
    else if |kb| <= rs then [kb]
    else [kb[..rs]] + Units(kb[rs..], rs)
  }

  /** The units put back together are the chunk; each has 1 to `rs` bytes, and all but the last exactly `rs`. */
  lemma {:induction false} UnitsFacts(kb: Bytes, rs: nat)
    requires rs >= 1
    ensures var us := Units(kb, rs);
            Flatten(us) == kb &&
            (forall i :: 0 <= i < |us| ==> 1 <= |us[i]| <= rs) &&
            (forall i :: 0 <= i < |us| - 1 ==> |us[i]| == rs)
    decreases |kb|
  {
    if |kb| > rs {
      UnitsFacts(kb[rs..], rs);
      var us := Units(kb, rs);
      var rest := Units(kb[rs..], rs);
      assert us == [kb[..rs]] + rest;
      assert us[1..] == rest;
      assert kb == kb[..rs] + kb[rs..];
      forall i | 1 <= i < |us| ensures us[i] == rest[i - 1] {
      }
    }
  }

  /** Unit `m` starts at byte `off = m * rs`, and it exists exactly when that offset is inside the data. */
  lemma {:induction false} UnitsAt(kb: Bytes, rs: nat, m: nat, off: nat)
    requires rs >= 1 && off == m * rs
    ensures off < |kb| <==> m < |Units(kb, rs)|
    ensures m < |Units(kb, rs)| ==> Units(kb, rs)[m] == Slice(kb, off, off + rs)
    ensures m >= |Units(kb, rs)| ==> Slice(kb, off, off + rs) == []
    decreases |kb|
  {
    if kb == [] {
    } else if |kb| <= rs {
      if m > 0 {
        MulMono(m, rs);
      }
    } else if m > 0 {
      MulPred(m, rs);
      UnitsAt(kb[rs..], rs, m - 1, off - rs);
      UnitsTail(kb, rs);
      SliceShift(kb, rs, off);
    }
  }

  lemma MulMono(m: nat, rs: nat)
    requires m >= 1
    ensures m * rs >= rs
  {
  }

  lemma MulPred(m: nat, rs: nat)
    requires m >= 1
    ensures (m - 1) * rs == m * rs - rs
  {
  }

  lemma UnitsTail(kb: Bytes, rs: nat)
    requires rs >= 1 && |kb| > rs
    ensures Units(kb, rs) == [kb[..rs]] + Units(kb[rs..], rs)
  {
  }

  lemma SliceShift(kb: Bytes, rs: nat, off: nat)
    requires rs <= off && rs <= |kb|
    ensures Slice(kb, off, off + rs) == Slice(kb[rs..], off - rs, off)
  {
  }

  /** The scan's step: a unit equal to the open run's extends it below the cap, otherwise it opens a new run. */
  function Extend(runs: seq<Run>, u: Bytes): (r: seq<Run>)
  {
    if runs != [] && runs[|runs| - 1].unit == u && runs[|runs| - 1].count < CAP
    then runs[..|runs| - 1] + [Run(u, runs[|runs| - 1].count + 1)]
    else runs + [Run(u, 1)]
  }

  function Runs(us: seq<Bytes>): seq<Run>
  {
    if us == [] then [] else Extend(Runs(us[..|us| - 1]), us[|us| - 1])
  }

  /** The payload a list of runs writes: one unit per run. */
  function RunBytes(runs: seq<Run>): Bytes
  {
    if runs == [] then [] else RunBytes(runs[..|runs| - 1]) + runs[|runs| - 1].unit
  }

  /** The count line a list of runs writes: `n,` per run. */
  function CountText(runs: seq<Run>): Bytes
  {
    if runs == [] then [] else CountText(runs[..|runs| - 1]) + (Decimal(runs[|runs| - 1].count) + [COMMA])
  }

  /** The bytes a list of runs stands for: each unit repeated by its count. */
  function Expand(runs: seq<Run>): Bytes
  {
    if runs == [] then [] else Expand(runs[..|runs| - 1]) + Repeat(runs[|runs| - 1].unit, runs[|runs| - 1].count)
  }

  /** The payload `compress_rle_kb` returns for one chunk. */
  function KbPayload(kb: Bytes, rs: nat): Bytes
    requires rs >= 1
  {
    if rs >= |kb| then kb else RunBytes(Runs(Units(kb, rs)))
  }

  /** What `compress_rle_kb` appends to the count line for one chunk. */
  function KbCounts(kb: Bytes, rs: nat): Bytes
    requires rs >= 1
  {
    if rs >= |kb| then [49] else CountText(Runs(Units(kb, rs)))
  }

  lemma RunsLast(us: seq<Bytes>, m: nat)
    requires m < |us|
    ensures Runs(us[..m + 1]) == Extend(Runs(us[..m]), us[m])
  {
    assert us[..m + 1][..m] == us[..m];
  }

  lemma EmitOne(runs: seq<Run>, r: Run)
    ensures RunBytes(runs + [r]) == RunBytes(runs) + r.unit
    ensures CountText(runs + [r]) == CountText(runs) + (Decimal(r.count) + [COMMA])
  {
    assert (runs + [r])[..|runs|] == runs;
  }

  /** One step of the scan against `Runs`: the open run grows, or it is closed and the next unit opens one. */
  lemma ScanStep(us: seq<Bytes>, m: nat, emitted: seq<Run>, cur: Bytes, counter: nat)
    requires m < |us| && emitted + [Run(cur, counter)] == Runs(us[..m])
    ensures cur == us[m] && counter < CAP ==> emitted + [Run(cur, counter + 1)] == Runs(us[..m + 1])
    ensures !(cur == us[m] && counter < CAP) ==> (emitted + [Run(cur, counter)]) + [Run(us[m], 1)] == Runs(us[..m + 1])
  {
    RunsLast(us, m);
    var runs := emitted + [Run(cur, counter)];
    assert runs[..|runs| - 1] == emitted;
  }

  /** What the scan of `compress_rle_kb` keeps true: the closed runs are written out, the open one is unit `m - 1`'s. */
  ghost predicate ScanInv(kb: Bytes, rs: nat, sizes: Bytes, chunk: Bytes, newSizes: Bytes,
                          cur: Bytes, counter: nat, lineCounter: nat, m: nat, emitted: seq<Run>)
  {
    ScanPos(kb, rs, lineCounter, m) && ScanOut(sizes, chunk, newSizes, emitted) &&
    ScanOpen(kb, rs, cur, counter, m, emitted)
  }

  /** The scan is at unit `m`, and it goes on while that unit exists. */
  ghost predicate ScanPos(kb: Bytes, rs: nat, lineCounter: nat, m: nat)
  {
    rs >= 1 && lineCounter == m * rs && m >= 1 &&
    (lineCounter < |kb| + rs <==> m <= |Units(kb, rs)|)
  }

  /** The runs closed so far are written to the payload and the count line. */
  ghost predicate ScanOut(sizes: Bytes, chunk: Bytes, newSizes: Bytes, emitted: seq<Run>)
  {
    chunk == RunBytes(emitted) && newSizes == sizes + CountText(emitted)
  }

  /** Before the end, the closed runs and the open one are the runs of the first `m` units; past it, the closed runs are all of them. */
  ghost predicate ScanOpen(kb: Bytes, rs: nat, cur: Bytes, counter: nat, m: nat, emitted: seq<Run>)
    requires rs >= 1
  {
    (m <= |Units(kb, rs)| ==> emitted + [Run(cur, counter)] == Runs(Units(kb, rs)[..m]) && cur != []) &&
    (m > |Units(kb, rs)| ==> emitted == Runs(Units(kb, rs)))
  }

  lemma ScanStart(kb: Bytes, rs: nat, sizes: Bytes)
    requires 1 <= rs < |kb|
    ensures ScanInv(kb, rs, sizes, [], sizes, kb[0..rs], 1, rs, 1, [])
  {
    var us := Units(kb, rs);
    UnitsAt(kb, rs, 0, 0);
    UnitsAt(kb, rs, 1, rs);
    assert us[..1] == [us[0]];
  }

  lemma ScanNextAt(kb: Bytes, rs: nat, lineCounter: nat, m: nat)
    requires rs >= 1 && lineCounter == m * rs
    ensures lineCounter + rs == (m + 1) * rs
    ensures lineCounter + rs < |kb| + rs <==> m + 1 <= |Units(kb, rs)|
  {
    MulPred(m + 1, rs);
    UnitsAt(kb, rs, m, lineCounter);
  }

  /** The next unit equals the open run's and the run is below the cap: the run grows. */
  lemma ScanGrow(kb: Bytes, rs: nat, sizes: Bytes, chunk: Bytes, newSizes: Bytes,
                 cur: Bytes, counter: nat, lineCounter: nat, m: nat, emitted: seq<Run>)
    requires ScanInv(kb, rs, sizes, chunk, newSizes, cur, counter, lineCounter, m, emitted)
    requires lineCounter < |kb| + rs
    requires cur == Slice(kb, lineCounter, lineCounter + rs) && counter < CAP
    ensures ScanInv(kb, rs, sizes, chunk, newSizes, cur, counter + 1, lineCounter + rs, m + 1, emitted)
  {
    var us := Units(kb, rs);
    UnitsAt(kb, rs, m, lineCounter);
    ScanNextAt(kb, rs, lineCounter, m);
    ScanStep(us, m, emitted, cur, counter);
  }

  /** Otherwise the open run is written out and the next unit opens a run; past the end that unit is empty. */
  lemma ScanClose(kb: Bytes, rs: nat, sizes: Bytes, chunk: Bytes, newSizes: Bytes,
                  cur: Bytes, counter: nat, lineCounter: nat, m: nat, emitted: seq<Run>)
    requires ScanInv(kb, rs, sizes, chunk, newSizes, cur, counter, lineCounter, m, emitted)
    requires lineCounter < |kb| + rs
    requires !(cur == Slice(kb, lineCounter, lineCounter + rs) && counter < CAP)
    ensures ScanInv(kb, rs, sizes, chunk + cur, newSizes + (Decimal(counter) + [COMMA]),
                    Slice(kb, lineCounter, lineCounter + rs), 1, lineCounter + rs, m + 1,
                    emitted + [Run(cur, counter)])
  {
    ScanNextAt(kb, rs, lineCounter, m);
    CloseOut(sizes, chunk, newSizes, emitted, Run(cur, counter));
    CloseRuns(kb, rs, cur, counter, lineCounter, m, emitted);
  }

  lemma CloseOut(sizes: Bytes, chunk: Bytes, newSizes: Bytes, emitted: seq<Run>, r: Run)
    requires ScanOut(sizes, chunk, newSizes, emitted)
    ensures ScanOut(sizes, chunk + r.unit, newSizes + (Decimal(r.count) + [COMMA]), emitted + [r])
  {
    EmitOne(emitted, r);
  }

  lemma CloseRuns(kb: Bytes, rs: nat, cur: Bytes, counter: nat, lineCounter: nat, m: nat, emitted: seq<Run>)
    requires rs >= 1 && lineCounter == m * rs && m <= |Units(kb, rs)|
    requires emitted + [Run(cur, counter)] == Runs(Units(kb, rs)[..m])
    requires !(cur == Slice(kb, lineCounter, lineCounter + rs) && counter < CAP)
    ensures var next := Slice(kb, lineCounter, lineCounter + rs);
            m + 1 <= |Units(kb, rs)| ==> (emitted + [Run(cur, counter)]) + [Run(next, 1)] == Runs(Units(kb, rs)[..m + 1]) && next != []
    ensures m + 1 > |Units(kb, rs)| ==> emitted + [Run(cur, counter)] == Runs(Units(kb, rs))
  {
    var us := Units(kb, rs);
    UnitsAt(kb, rs, m, lineCounter);
    if m < |us| {
      ScanStep(us, m, emitted, cur, counter);
    } else {
      assert us[..m] == us;
    }
  }

  /**
   * `compress_rle_kb`: a chunk no longer than `repeat_size` is returned
   * unchanged with `1` (and no comma) added to the counts; otherwise the
   * chunk is scanned unit by unit, closing a run whenever the next unit
   * differs or the run has reached the cap, and once more past the end.
   */
  method CompressRleKb(kbData: Bytes, sizes: Bytes, repeatSize: nat) returns (chunk: Bytes, newSizes: Bytes)
    requires repeatSize >= 1
    ensures chunk == KbPayload(kbData, repeatSize)
    ensures newSizes == sizes + KbCounts(kbData, repeatSize)
  {
    if repeatSize >= |kbData| {
      return kbData, sizes + [49];
    }
    var rs := repeatSize;
    var n := |kbData|;
    chunk := [];
    newSizes := sizes;
    var currentBytes := kbData[0..rs];
    var counter := 1;
    var lineCounter := rs;
    ghost var m: nat := 1;
    ghost var emitted: seq<Run> := [];
    ScanStart(kbData, rs, sizes);
    while lineCounter < n + rs
      invariant ScanInv(kbData, rs, sizes, chunk, newSizes, currentBytes, counter, lineCounter, m, emitted)
      decreases n + rs - lineCounter
    {
      var next := Slice(kbData, lineCounter, lineCounter + rs);
      if currentBytes == next && counter < CAP {
        ScanGrow(kbData, rs, sizes, chunk, newSizes, currentBytes, counter, lineCounter, m, emitted);
        counter := counter + 1;
        currentBytes := next;
        lineCounter := lineCounter + rs;
      } else {
        ScanClose(kbData, rs, sizes, chunk, newSizes, currentBytes, counter, lineCounter, m, emitted);
        newSizes := newSizes + (Decimal(counter) + [COMMA]);
        chunk := chunk + currentBytes;
        emitted := emitted + [Run(currentBytes, counter)];
        currentBytes := next;
        lineCounter := lineCounter + rs;
        counter := 1;
      }
      m := m + 1;
    }
  }

  /* ---------------------------------------------------------------------- */
  /* What the scan produces                                                  */

  /** Every run's unit is `rs` bytes long, except the last run's, which may be shorter. */
  ghost predicate Shaped(runs: seq<Run>, rs: nat)
  {
    (forall i :: 0 <= i < |runs| ==> 1 <= |runs[i].unit| <= rs) &&
    (forall i :: 0 <= i < |runs| - 1 ==> |runs[i].unit| == rs)
  }

  /** Every run's count is a positive number of units, at most the cap. */
  ghost predicate CountsInRange(runs: seq<Run>)
  {
    forall i :: 0 <= i < |runs| ==> 1 <= runs[i].count <= CAP
  }

  /** Neighbouring runs have different units, unless the first of them stopped at the cap. */
  ghost predicate Maximal(runs: seq<Run>)
  {
    forall i :: 0 <= i < |runs| - 1 ==> runs[i].unit != runs[i + 1].unit || runs[i].count == CAP
  }

  lemma {:induction false} RepeatSnoc(u: Bytes, n: nat)
    ensures Repeat(u, n + 1) == Repeat(u, n) + u
  {
    if n > 0 {
      RepeatSnoc(u, n - 1);
    }
  }

  lemma ExtendExpand(runs: seq<Run>, u: Bytes)
    ensures Expand(Extend(runs, u)) == Expand(runs) + u
  {
    var r := Extend(runs, u);
    if runs != [] && runs[|runs| - 1].unit == u && runs[|runs| - 1].count < CAP {
      var k := |runs| - 1;
      assert r[..|r| - 1] == runs[..k];
      RepeatSnoc(u, runs[k].count);
    } else {
      assert r[..|r| - 1] == runs;
      assert Repeat(u, 1) == u;
    }
  }

  lemma FlattenSnoc(p: seq<Bytes>, u: Bytes)
    ensures Flatten(p + [u]) == Flatten(p) + u
  {
    FlattenAppend(p, [u]);
    assert Flatten([u]) == u + Flatten([]);
  }

  /** Repeating each run's unit by its count gives back the units scanned. */
  lemma {:induction false} RunsExpand(us: seq<Bytes>)
    ensures Expand(Runs(us)) == Flatten(us)
  {
    if us != [] {
      var p := us[..|us| - 1];
      var u := us[|us| - 1];
      RunsExpand(p);
      ExtendExpand(Runs(p), u);
      assert Runs(us) == Extend(Runs(p), u);
      FlattenSnoc(p, u);
      assert us == p + [u];
    }
  }

  /** The counts stay between 1 and the cap, and a run is only cut short by the cap or by a different unit. */
  lemma {:induction false} RunsCounts(us: seq<Bytes>)
    ensures CountsInRange(Runs(us)) && Maximal(Runs(us))
  {
    if us != [] {
      var p := us[..|us| - 1];
      RunsCounts(p);
      var runs := Runs(p);
      var u := us[|us| - 1];
      var r := Extend(runs, u);
      if runs != [] && runs[|runs| - 1].unit == u && runs[|runs| - 1].count < CAP {
        var k := |runs| - 1;
        assert r == runs[..k] + [Run(u, runs[k].count + 1)];
        forall i | 0 <= i < |r| - 1 ensures r[i].unit != r[i + 1].unit || r[i].count == CAP {
          assert r[i] == runs[i];
          assert r[i + 1].unit == runs[i + 1].unit;
        }
      } else {
        assert r == runs + [Run(u, 1)];
        forall i | 0 <= i < |r| - 1 ensures r[i].unit != r[i + 1].unit || r[i].count == CAP {
          if i < |runs| - 1 {
            assert r[i] == runs[i] && r[i + 1] == runs[i + 1];
          }
        }
      }
    }
  }

  /** The units of a run list are units that were scanned; the last run holds the last unit. */
  lemma {:induction false} RunsShape(us: seq<Bytes>, rs: nat)
    requires forall i :: 0 <= i < |us| ==> 1 <= |us[i]| <= rs
    requires forall i :: 0 <= i < |us| - 1 ==> |us[i]| == rs
    ensures |Runs(us)| <= |us| && (us == [] <==> Runs(us) == [])
    ensures Shaped(Runs(us), rs)
    ensures us != [] ==> Runs(us)[|Runs(us)| - 1].unit == us[|us| - 1]
  {
    if us != [] {
      var p := us[..|us| - 1];
      RunsShape(p, rs);
      ExtendShape(Runs(p), us[|us| - 1], rs);
    }
  }

  /** A unit of at most `rs` bytes extends a run list whose units are all `rs` bytes into a shaped one. */
  lemma ExtendShape(runs: seq<Run>, u: Bytes, rs: nat)
    requires Shaped(runs, rs) && 1 <= |u| <= rs
    requires runs != [] ==> |runs[|runs| - 1].unit| == rs
    ensures Shaped(Extend(runs, u), rs)
    ensures |Extend(runs, u)| <= |runs| + 1 && Extend(runs, u) != []
    ensures Extend(runs, u)[|Extend(runs, u)| - 1].unit == u
  {
    var r := Extend(runs, u);
    if runs != [] && runs[|runs| - 1].unit == u && runs[|runs| - 1].count < CAP {
      var k := |runs| - 1;
      assert r == runs[..k] + [Run(u, runs[k].count + 1)];
      forall i | 0 <= i < |r| ensures 1 <= |r[i].unit| <= rs {
        if i < k { assert r[i] == runs[i]; }
      }
    } else {
      assert r == runs + [Run(u, 1)];
      forall i | 0 <= i < |r| ensures 1 <= |r[i].unit| <= rs {
        if i < |runs| { assert r[i] == runs[i]; }
      }
      forall i | 0 <= i < |r| - 1 ensures |r[i].unit| == rs {
        assert r[i] == runs[i];
      }
    }
  }

  /**
   * `compress_rle_kb` for a chunk longer than `repeat_size`: the payload is the
   * runs' units, the count line gains one `n,` per run, repeating each unit by
   * its count rebuilds the chunk, every count is in 1..10^9, and a run ends
   * only where the next unit differs or the cap was reached.
   */
  lemma RleKbFacts(kb: Bytes, rs: nat)
    requires 1 <= rs < |kb|
    ensures var runs := Runs(Units(kb, rs));
            KbPayload(kb, rs) == RunBytes(runs) && KbCounts(kb, rs) == CountText(runs) &&
            Expand(runs) == kb && runs != [] && Shaped(runs, rs) &&
            CountsInRange(runs) && Maximal(runs)
  {
    var us := Units(kb, rs);
    UnitsFacts(kb, rs);
    RunsExpand(us);
    RunsCounts(us);
    RunsShape(us, rs);
  }

  /* ---------------------------------------------------------------------- */
  /* The chunk loop of `compress_rle`                                        */

  /** The payload `compress_rle` writes after encoding `data` chunk by chunk. */
  function RleOut(data: Bytes, rs: int): Bytes
    requires rs >= 1 || data == []
    decreases |data|
  {
    if data == [] then [] else KbPayload(Slice(data, 0, KILO), rs) + RleOut(Drop(data, KILO), rs)
  }

  /** The count line `compress_rle` writes: each chunk's counts in turn. */
  function RleCounts(data: Bytes, rs: int): Bytes
    requires rs >= 1 || data == []
    decreases |data|
  {
    if data == [] then [] else KbCounts(Slice(data, 0, KILO), rs) + RleCounts(Drop(data, KILO), rs)
  }

  lemma RleStep(data: Bytes, rs: nat)
    requires rs >= 1 && data != []
    ensures RleOut(data, rs) == KbPayload(Slice(data, 0, KILO), rs) + RleOut(Drop(data, KILO), rs)
    ensures RleCounts(data, rs) == KbCounts(Slice(data, 0, KILO), rs) + RleCounts(Drop(data, KILO), rs)
  {
  }

  /** One turn of the chunk loop keeps its invariant. */
  lemma ChunkLoopStep(data: Bytes, rs: nat, body: Bytes, sizes: Bytes, rest: Bytes)
    requires rs >= 1 && rest != []
    requires body + RleOut(rest, rs) == RleOut(data, rs)
    requires sizes + RleCounts(rest, rs) == RleCounts(data, rs)
    ensures var kb := Slice(rest, 0, KILO);
            var rest' := Drop(rest, KILO);
            (body + KbPayload(kb, rs)) + RleOut(rest', rs) == RleOut(data, rs) &&
            (sizes + KbCounts(kb, rs)) + RleCounts(rest', rs) == RleCounts(data, rs)
  {
    RleStep(rest, rs);
    var kb := Slice(rest, 0, KILO);
    var rest' := Drop(rest, KILO);
    Regroup(body, KbPayload(kb, rs), RleOut(rest', rs));
    Regroup(sizes, KbCounts(kb, rs), RleCounts(rest', rs));
  }

  /**
   * The loop of `compress_rle`: each 1000-byte chunk is encoded in turn, the
   * payloads concatenated and the count line threaded through.  An empty file
   * skips the loop, whatever the repeat size.
   */
  method CompressRleChunks(data: Bytes, repeatSize: int) returns (body: Bytes, sizes: Bytes)
    requires repeatSize >= 1 || data == []
    ensures body == RleOut(data, repeatSize) && sizes == RleCounts(data, repeatSize)
  {
    var originalFileData := data;
    body := [];
    sizes := [];
    while originalFileData != []
      invariant repeatSize >= 1 || originalFileData == []
      invariant body + RleOut(originalFileData, repeatSize) == RleOut(data, repeatSize)
      invariant sizes + RleCounts(originalFileData, repeatSize) == RleCounts(data, repeatSize)
      decreases |originalFileData|
    {
      var oneKb := Slice(originalFileData, 0, KILO);
      var compressedData;
      ghost var body0, sizes0, rest0 := body, sizes, originalFileData;
      compressedData, sizes := CompressRleKb(oneKb, sizes, repeatSize);
      body := body + compressedData;
      originalFileData := Drop(originalFileData, KILO);
      ChunkLoopStep(data, repeatSize, body0, sizes0, rest0);
    }
    assert body + [] == body;
    assert sizes + [] == sizes;
  }

  /** The runs of every chunk, in order. */
  function ChunkRuns(data: Bytes, rs: nat): seq<Run>
    requires rs >= 1
    decreases |data|
  {
    if data == [] then [] else Runs(Units(Slice(data, 0, KILO), rs)) + ChunkRuns(Drop(data, KILO), rs)
  }

  /** The last chunk of `data` is longer than `rs` bytes. */
  predicate LastChunkLonger(data: Bytes, rs: nat)
    decreases |data|
  {
    if |data| <= KILO then |data| > rs else LastChunkLonger(data[KILO..], rs)
  }

  lemma {:induction false} LastChunkBound(data: Bytes, rs: nat)
    requires LastChunkLonger(data, rs)
    ensures rs < KILO && data != []
    decreases |data|
  {
    if |data| > KILO {
      LastChunkBound(data[KILO..], rs);
    }
  }

  lemma {:induction false} RunBytesAppend(a: seq<Run>, b: seq<Run>)
    ensures RunBytes(a + b) == RunBytes(a) + RunBytes(b)
  {
    if b == [] {
      assert a + b == a;
    } else {
      assert (a + b)[..|a + b| - 1] == a + b[..|b| - 1];
      RunBytesAppend(a, b[..|b| - 1]);
    }
  }

  lemma {:induction false} CountTextAppend(a: seq<Run>, b: seq<Run>)
    ensures CountText(a + b) == CountText(a) + CountText(b)
  {
    if b == [] {
      assert a + b == a;
    } else {
      assert (a + b)[..|a + b| - 1] == a + b[..|b| - 1];
      CountTextAppend(a, b[..|b| - 1]);
    }
  }

  lemma {:induction false} ExpandAppend(a: seq<Run>, b: seq<Run>)
    ensures Expand(a + b) == Expand(a) + Expand(b)
  {
    if b == [] {
      assert a + b == a;
    } else {
      assert (a + b)[..|a + b| - 1] == a + b[..|b| - 1];
      ExpandAppend(a, b[..|b| - 1]);
    }
  }

  /** `n` is a whole number of `rs`-byte units. */
  predicate Fits(n: nat, rs: nat)
    requires rs >= 1
    decreases n
  {
    n == 0 || (n >= rs && Fits(n - rs, rs))
  }

  /** When `rs` divides the chunk's length, every unit is a full `rs` bytes. */
  lemma {:induction false} UnitsFull(kb: Bytes, rs: nat)
    requires rs >= 1 && Fits(|kb|, rs)
    ensures forall i :: 0 <= i < |Units(kb, rs)| ==> |Units(kb, rs)[i]| == rs
    decreases |kb|
  {
    if kb != [] && |kb| > rs {
      UnitsFull(kb[rs..], rs);
      UnitsTail(kb, rs);
    }
  }

  lemma ShapedAppend(a: seq<Run>, b: seq<Run>, rs: nat)
    requires Shaped(a, rs) && Shaped(b, rs)
    requires a != [] ==> |a[|a| - 1].unit| == rs
    ensures Shaped(a + b, rs)
  {
    var c := a + b;
    forall i | 0 <= i < |c| - 1 ensures |c[i].unit| == rs {
      if i < |a| { assert c[i] == a[i]; } else { assert c[i] == b[i - |a|]; }
    }
    forall i | 0 <= i < |c| ensures 1 <= |c[i].unit| <= rs {
      if i < |a| { assert c[i] == a[i]; } else { assert c[i] == b[i - |a|]; }
    }
  }

  /** The effect of one full chunk: its runs are all full and shaped. */
  lemma FullChunkRuns(kb: Bytes, rs: nat)
    requires 1 <= rs < |kb| && Fits(|kb|, rs)
    ensures var runs := Runs(Units(kb, rs));
            runs != [] && Shaped(runs, rs) && |runs[|runs| - 1].unit| == rs
  {
    var us := Units(kb, rs);
    UnitsFacts(kb, rs);
    UnitsFull(kb, rs);
    RunsShape(us, rs);
  }

  /**
   * When `rs` divides 1000 and the last chunk is longer than `rs`, every chunk
   * takes the scanning branch: the payload is the units of all chunks' runs
   * and the count line has one `n,` per run.
   */
  lemma {:induction false} RleBodyRuns(data: Bytes, rs: nat)
    requires rs >= 1 && Fits(KILO, rs) && LastChunkLonger(data, rs)
    ensures var runs := ChunkRuns(data, rs);
            RleOut(data, rs) == RunBytes(runs) && RleCounts(data, rs) == CountText(runs)
    decreases |data|
  {
    LastChunkBound(data, rs);
    var kb := Slice(data, 0, KILO);
    var rest := Drop(data, KILO);
    var first := Runs(Units(kb, rs));
    RleKbFacts(kb, rs);
    if |data| <= KILO {
      assert rest == [];
      assert ChunkRuns(data, rs) == first + [];
      assert first + [] == first;
      assert RunBytes(first) + [] == RunBytes(first);
      assert CountText(first) + [] == CountText(first);
    } else {
      RleBodyRuns(rest, rs);
      var more := ChunkRuns(rest, rs);
      RunBytesAppend(first, more);
      CountTextAppend(first, more);
    }
  }

  /**
   * Under the same conditions, the runs of all chunks stand for the input:
   * repeating each unit by its count rebuilds `data`, and every unit is
   * `rs` bytes except possibly the very last.
   */
  lemma {:induction false} ChunkRunsShape(data: Bytes, rs: nat)
    requires rs >= 1 && Fits(KILO, rs) && LastChunkLonger(data, rs)
    ensures var runs := ChunkRuns(data, rs);
            Expand(runs) == data && runs != [] && Shaped(runs, rs)
    decreases |data|
  {
    LastChunkBound(data, rs);
    var kb := Slice(data, 0, KILO);
    var rest := Drop(data, KILO);
    var first := Runs(Units(kb, rs));
    if |data| <= KILO {
      assert kb == data && rest == [];
      assert ChunkRuns(data, rs) == first by {
        assert ChunkRuns(data, rs) == first + [];
        assert first + [] == first;
      }
      assert Expand(first) == data && first != [] && Shaped(first, rs) by {
        UnitsFacts(kb, rs);
        RunsExpand(Units(kb, rs));
        RunsShape(Units(kb, rs), rs);
      }
    } else {
      assert kb == data[..KILO] && rest == data[KILO..];
      assert ChunkRuns(data, rs) == first + ChunkRuns(rest, rs);
      ChunkRunsShape(rest, rs);
      FullChunkRest(kb, rest, rs);
      assert data == kb + rest;
    }
  }

  lemma FullChunkRest(kb: Bytes, rest: Bytes, rs: nat)
    requires 1 <= rs < |kb| && Fits(|kb|, rs)
    requires var runs := ChunkRuns(rest, rs); Expand(runs) == rest && Shaped(runs, rs)
    ensures var runs := Runs(Units(kb, rs)) + ChunkRuns(rest, rs);
            Expand(runs) == kb + rest && Shaped(runs, rs)
  {
    var first := Runs(Units(kb, rs));
    var more := ChunkRuns(rest, rs);
    UnitsFacts(kb, rs);
    RunsExpand(Units(kb, rs));
    FullChunkRuns(kb, rs);
    ExpandAppend(first, more);
    ShapedAppend(first, more, rs);
  }
}
