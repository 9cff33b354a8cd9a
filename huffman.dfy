/**
 * The Huffman side of `Compressor`: the frequency table, its stable sort, the
 * merge loop that builds the tree with an index-order tie-break, and the code
 * map read off the tree.
 */
module Huffman {
  import opened Bytes
  import opened TreeNode

  /** One `(byte, count)` entry of the frequency table. */
  datatype Freq = Freq(sym: byte, count: nat)

  type Bits = seq<bool>

  // ---------------------------------------------------------------------------
  // count_each_char: an insertion-ordered dictionary from byte to count
  // ---------------------------------------------------------------------------

  /** Where `b` sits among the keys of `t`, or `|t|` when it is not a key. */
  function KeyIndex(t: seq<Freq>, b: byte): (k: nat)
    ensures k <= |t|
    ensures k < |t| ==> t[k].sym == b
    ensures forall j :: 0 <= j < k ==> t[j].sym != b
  {
    if t == [] then 0
    else if t[0].sym == b then 0
    else 1 + KeyIndex(t[1..], b)
  }

  /** One dictionary step: a new key is appended with count 1, an old one is incremented in place. */
  function Bump(t: seq<Freq>, b: byte): seq<Freq>
  {
    var k := KeyIndex(t, b);
    if k == |t| then t + [Freq(b, 1)] else t[k := Freq(b, t[k].count + 1)]
  }

  /** The dictionary `count_each_char` has built after reading all of `data`. */
  function Tally(data: Bytes): seq<Freq>
    decreases |data|
  {
    if data == [] then []
    else Bump(Tally(data[..|data| - 1]), data[|data| - 1])
  }

  /** The count stored for `b`, 0 when `b` is not a key. */
  function CountOf(t: seq<Freq>, b: byte): nat
  {
    var k := KeyIndex(t, b);
    if k < |t| then t[k].count else 0
  }

  function Total(t: seq<Freq>): nat
  {
    if t == [] then 0 else Total(t[..|t| - 1]) + t[|t| - 1].count
  }

  predicate DistinctKeys(t: seq<Freq>)
  {
    forall i, j :: 0 <= i < j < |t| ==> t[i].sym != t[j].sym
  }

  /** Position of the first occurrence of `b` in `s`, `|s|` when absent. */
  function FirstIndex(s: Bytes, b: byte): (k: nat)
    ensures k <= |s|
    ensures k < |s| ==> s[k] == b
    ensures forall j :: 0 <= j < k ==> s[j] != b
  {
    if s == [] then 0
    else if s[0] == b then 0
    else 1 + FirstIndex(s[1..], b)
  }

  /** Keys are listed in the order their bytes are first met in `data`. */
  predicate FirstSeenOrder(t: seq<Freq>, data: Bytes)
  {
    forall i, j :: 0 <= i < j < |t| ==> FirstIndex(data, t[i].sym) < FirstIndex(data, t[j].sym)
  }

  /**
   * `count_each_char`: one pass over the data, testing membership and then
   * inserting or incrementing.
   */
  method CountEachChar(data: Bytes) returns (t: seq<Freq>)
    ensures t == Tally(data)
  {
    t := [];
    for i := 0 to |data|
      invariant t == Tally(data[..i])
    {
      var b := data[i];
      var k := KeyIndex(t, b);
      if k == |t| {
        t := t + [Freq(b, 1)];
      } else {
        t := t[k := Freq(b, t[k].count + 1)];
      }
      assert data[..i + 1][..i] == data[..i];
    }
    assert data[..|data|] == data;
  }

  lemma {:induction false} KeyIndexSameKeys(t: seq<Freq>, u: seq<Freq>, b: byte)
    requires |t| == |u|
    requires forall i :: 0 <= i < |t| ==> t[i].sym == u[i].sym
    ensures KeyIndex(t, b) == KeyIndex(u, b)
  {
    if t != [] && t[0].sym != b {
      KeyIndexSameKeys(t[1..], u[1..], b);
    }
  }

  lemma {:induction false} TotalAppend(a: seq<Freq>, b: seq<Freq>)
    ensures Total(a + b) == Total(a) + Total(b)
    decreases |b|
  {
    if b == [] {
      assert a + b == a;
    } else {
      assert (a + b)[..|a + b| - 1] == a + b[..|b| - 1];
      TotalAppend(a, b[..|b| - 1]);
    }
  }

  lemma TotalUpdate(t: seq<Freq>, k: nat, x: Freq)
    requires k < |t|
    ensures Total(t[k := x]) == Total(t) - t[k].count + x.count
  {
    assert t == t[..k] + [t[k]] + t[k + 1..];
    assert t[k := x] == t[..k] + [x] + t[k + 1..];
    TotalAppend(t[..k] + [t[k]], t[k + 1..]);
    TotalAppend(t[..k], [t[k]]);
    TotalAppend(t[..k] + [x], t[k + 1..]);
    TotalAppend(t[..k], [x]);
    assert Total([t[k]]) == t[k].count by { assert [t[k]][..0] == []; }
    assert Total([x]) == x.count by { assert [x][..0] == []; }
  }

  /** One step of the table keeps keys distinct, adds one to the count of `b` only, and adds one to the total. */
  lemma BumpFacts(t: seq<Freq>, b: byte)
    requires DistinctKeys(t)
    ensures DistinctKeys(Bump(t, b))
    ensures forall c :: CountOf(Bump(t, b), c) == CountOf(t, c) + (if c == b then 1 else 0)
    ensures Total(Bump(t, b)) == Total(t) + 1
    ensures forall i :: 0 <= i < |t| ==> Bump(t, b)[i].sym == t[i].sym
    ensures |Bump(t, b)| == |t| + (if KeyIndex(t, b) == |t| then 1 else 0)
  {
    BumpShape(t, b);
    BumpCounts(t, b);
    BumpTotal(t, b);
  }

  lemma BumpShape(t: seq<Freq>, b: byte)
    requires DistinctKeys(t)
    ensures DistinctKeys(Bump(t, b))
    ensures forall i :: 0 <= i < |t| ==> Bump(t, b)[i].sym == t[i].sym
    ensures |Bump(t, b)| == |t| + (if KeyIndex(t, b) == |t| then 1 else 0)
  {
    var k := KeyIndex(t, b);
    var u := Bump(t, b);
    if k == |t| {
      assert u == t + [Freq(b, 1)];
    } else {
      assert u == t[k := Freq(b, t[k].count + 1)];
    }
  }

  lemma BumpCounts(t: seq<Freq>, b: byte)
    ensures forall c :: CountOf(Bump(t, b), c) == CountOf(t, c) + (if c == b then 1 else 0)
  {
    var k := KeyIndex(t, b);
    var u := Bump(t, b);
    if k == |t| {
      forall c ensures CountOf(u, c) == CountOf(t, c) + (if c == b then 1 else 0) {
        KeyIndexAppend(t, Freq(b, 1), c);
      }
    } else {
      forall c ensures CountOf(u, c) == CountOf(t, c) + (if c == b then 1 else 0) {
        KeyIndexSameKeys(t, u, c);
      }
    }
  }

  lemma BumpTotal(t: seq<Freq>, b: byte)
    ensures Total(Bump(t, b)) == Total(t) + 1
  {
    var k := KeyIndex(t, b);
    var u := Bump(t, b);
    if k == |t| {
      assert u[..|u| - 1] == t;
    } else {
      TotalUpdate(t, k, Freq(b, t[k].count + 1));
    }
  }

  lemma {:induction false} KeyIndexAppend(t: seq<Freq>, x: Freq, c: byte)
    ensures KeyIndex(t + [x], c) == (if KeyIndex(t, c) < |t| then KeyIndex(t, c) else if x.sym == c then |t| else |t| + 1)
  {
    if t != [] {
      assert (t + [x])[1..] == t[1..] + [x];
      if t[0].sym != c {
        KeyIndexAppend(t[1..], x, c);
      }
    }
  }

  lemma {:induction false} FirstIndexPrefix(s: Bytes, n: nat, b: byte)
    requires n <= |s|
    requires FirstIndex(s[..n], b) < n
    ensures FirstIndex(s, b) == FirstIndex(s[..n], b)
  {
    if s[0] != b {
      assert s[..n][1..] == s[1..][..n - 1];
      FirstIndexPrefix(s[1..], n - 1, b);
    }
  }

  lemma FirstIndexLast(s: Bytes, b: byte)
    requires b in s
    requires b !in s[..|s| - 1]
    ensures FirstIndex(s, b) == |s| - 1
  {
    forall j | 0 <= j < |s| - 1 ensures s[j] != b {
      assert s[..|s| - 1][j] == s[j];
    }
  }

  /** Keys stay distinct, each count is the number of occurrences, and the counts sum to the length. */
  lemma {:induction false} TallyCounts(data: Bytes)
    ensures DistinctKeys(Tally(data))
    ensures forall b :: CountOf(Tally(data), b) == multiset(data)[b]
    ensures Total(Tally(data)) == |data|
    decreases |data|
  {
    if data != [] {
      var p := data[..|data| - 1];
      var x := data[|data| - 1];
      assert data == p + [x];
      TallyCounts(p);
      BumpFacts(Tally(p), x);
      assert multiset(data) == multiset(p) + multiset{x};
    }
  }

  /** The keys are exactly the bytes of `data`, each with a count of at least 1. */
  lemma TallyKeys(data: Bytes)
    ensures forall b :: KeyIndex(Tally(data), b) < |Tally(data)| <==> b in data
    ensures forall i :: 0 <= i < |Tally(data)| ==> Tally(data)[i].sym in data && Tally(data)[i].count >= 1
  {
    TallyCounts(data);
    var u := Tally(data);
    forall b ensures KeyIndex(u, b) < |u| <==> b in data {
      assert CountOf(u, b) == multiset(data)[b];
    }
    forall i | 0 <= i < |u| ensures u[i].sym in data && u[i].count >= 1 {
      KeyIndexDistinct(u, i);
      assert CountOf(u, u[i].sym) == u[i].count;
    }
  }

  /** Keys come in the order their bytes first occur. */
  lemma {:induction false} TallyOrder(data: Bytes)
    ensures FirstSeenOrder(Tally(data), data)
    decreases |data|
  {
    if data != [] {
      var p := data[..|data| - 1];
      var x := data[|data| - 1];
      assert data == p + [x];
      TallyOrder(p);
      TallyCounts(p);
      TallyKeys(p);
      var t := Tally(p);
      BumpFacts(t, x);
      var u := Tally(data);
      forall i, j | 0 <= i < j < |u| ensures FirstIndex(data, u[i].sym) < FirstIndex(data, u[j].sym) {
        TallyOrderPair(p, x, t, i, j);
      }
    }
  }

  /** One pair of keys after one more byte: old keys keep their order, a new key comes last. */
  lemma TallyOrderPair(p: Bytes, x: byte, t: seq<Freq>, i: nat, j: nat)
    requires t == Tally(p) && FirstSeenOrder(t, p) && DistinctKeys(t)
    requires forall b :: KeyIndex(t, b) < |t| <==> b in p
    requires i < j < |Bump(t, x)|
    ensures var u := Bump(t, x);
            FirstIndex(p + [x], u[i].sym) < FirstIndex(p + [x], u[j].sym)
  {
    var u := Bump(t, x);
    BumpShape(t, x);
    FirstIndexSeen(p, t, i);
    if j < |t| {
      FirstIndexSeen(p, t, j);
    } else {
      assert u == t + [Freq(x, 1)] && x !in p;
      assert (p + [x])[..|p|] == p;
      FirstIndexLast(p + [x], x);
    }
  }

  /**
   * The table `count_each_char` returns: its keys are distinct and are exactly
   * the bytes of `data`, listed in first-seen order; each count is the number of
   * occurrences (so at least 1), and the counts sum to the length of `data`.
   */
  lemma TallyFacts(data: Bytes)
    ensures DistinctKeys(Tally(data))
    ensures forall b :: CountOf(Tally(data), b) == multiset(data)[b]
    ensures forall b :: KeyIndex(Tally(data), b) < |Tally(data)| <==> b in data
    ensures forall i :: 0 <= i < |Tally(data)| ==> Tally(data)[i].sym in data && Tally(data)[i].count >= 1
    ensures Total(Tally(data)) == |data|
    ensures FirstSeenOrder(Tally(data), data)
  {
    TallyCounts(data);
    TallyKeys(data);
    TallyOrder(data);
  }

  /** A key of the table for a prefix has its first occurrence inside that prefix. */
  lemma FirstIndexSeen(p: Bytes, t: seq<Freq>, i: nat)
    requires t == Tally(p)
    requires forall b :: KeyIndex(t, b) < |t| <==> b in p
    requires DistinctKeys(t)
    requires i < |t|
    ensures forall x: byte :: FirstIndex(p + [x], t[i].sym) == FirstIndex(p, t[i].sym)
    ensures FirstIndex(p, t[i].sym) < |p|
  {
    KeyIndexDistinct(t, i);
    var b := t[i].sym;
    assert b in p;
    var k :| 0 <= k < |p| && p[k] == b;
    forall x: byte ensures FirstIndex(p + [x], b) == FirstIndex(p, b) {
      assert (p + [x])[..|p|] == p;
      FirstIndexPrefix(p + [x], |p|, b);
    }
  }

  lemma KeyIndexDistinct(t: seq<Freq>, i: nat)
    requires DistinctKeys(t)
    requires i < |t|
    ensures KeyIndex(t, t[i].sym) == i
  {
  }

  // ---------------------------------------------------------------------------
  // sorted_chars_repeats: the table sorted by count, stably
  // ---------------------------------------------------------------------------

  /**
   * `sorted(..., key=lambda x: x[1])` is a stable sort; it is written here as
   * insertion of each entry, in table order, after every entry whose count is
   * not larger.
   */
  function Insert(s: seq<Freq>, x: Freq): (r: seq<Freq>)
    ensures multiset(r) == multiset(s) + multiset{x}
    ensures forall y :: y in r <==> y == x || y in s
  {
    if s == [] then [x]
    else if x.count < s[0].count then [x] + s
    else
      assert s == [s[0]] + s[1..];
      [s[0]] + Insert(s[1..], x)
  }

  function SortByCount(t: seq<Freq>): (r: seq<Freq>)
    ensures multiset(r) == multiset(t)
  {
    if t == [] then []
    else
      assert t == t[..|t| - 1] + [t[|t| - 1]];
      Insert(SortByCount(t[..|t| - 1]), t[|t| - 1])
  }

  /** `sorted_chars_repeats`: the frequency table of `data`, in ascending count order. */
  function SortedCharsRepeats(data: Bytes): seq<Freq>
  {
    SortByCount(Tally(data))
  }

  /**
   * Ascending by count; among equal counts, by position of first occurrence in
   * `data`.  This order is strict, so it fixes the result completely.
   */
  predicate CountThenFirstSeen(r: seq<Freq>, data: Bytes)
  {
    forall i, j :: 0 <= i < j < |r| ==> LexBefore(r[i], r[j], data)
  }

  /** Ascending by count, ties by the rank of the byte (its first occurrence in the data). */
  predicate LexBefore(a: Freq, b: Freq, data: Bytes)
  {
    a.count < b.count || (a.count == b.count && FirstIndex(data, a.sym) < FirstIndex(data, b.sym))
  }

  lemma InsertFront(s: seq<Freq>, x: Freq, data: Bytes)
    requires s != [] && x.count < s[0].count
    requires CountThenFirstSeen(s, data)
    ensures CountThenFirstSeen(Insert(s, x), data)
  {
    var r := Insert(s, x);
    assert r == [x] + s;
    forall i, j | 0 <= i < j < |r| ensures LexBefore(r[i], r[j], data) {
      if i == 0 {
        assert r[j] == s[j - 1];
        assert j - 1 == 0 || LexBefore(s[0], s[j - 1], data);
      } else {
        assert r[i] == s[i - 1] && r[j] == s[j - 1];
        assert LexBefore(s[i - 1], s[j - 1], data);
      }
    }
  }

  lemma InsertLater(s: seq<Freq>, x: Freq, data: Bytes)
    requires s != [] && x.count >= s[0].count
    requires CountThenFirstSeen(s, data)
    requires FirstIndex(data, s[0].sym) < FirstIndex(data, x.sym)
    requires CountThenFirstSeen(Insert(s[1..], x), data)
    ensures CountThenFirstSeen(Insert(s, x), data)
  {
    var r := Insert(s, x);
    var tail := Insert(s[1..], x);
    assert r == [s[0]] + tail;
    forall i, j | 0 <= i < j < |r| ensures LexBefore(r[i], r[j], data) {
      if i == 0 {
        assert r[j] == tail[j - 1];
        HeadBefore(s, x, data, r[j]);
      } else {
        assert r[i] == tail[i - 1] && r[j] == tail[j - 1];
      }
    }
  }

  /** The head of an ordered table comes before every entry of the rest with `x` inserted. */
  lemma HeadBefore(s: seq<Freq>, x: Freq, data: Bytes, y: Freq)
    requires s != [] && x.count >= s[0].count
    requires CountThenFirstSeen(s, data)
    requires FirstIndex(data, s[0].sym) < FirstIndex(data, x.sym)
    requires y in Insert(s[1..], x)
    ensures LexBefore(s[0], y, data)
  {
    if y != x {
      assert y in s[1..];
      var k :| 0 <= k < |s[1..]| && s[1..][k] == y;
      assert s[k + 1] == y;
    }
  }

  lemma {:induction false} InsertOrdered(s: seq<Freq>, x: Freq, data: Bytes)
    requires CountThenFirstSeen(s, data)
    requires forall y :: y in s ==> FirstIndex(data, y.sym) < FirstIndex(data, x.sym)
    ensures CountThenFirstSeen(Insert(s, x), data)
  {
    if s == [] {
    } else if x.count < s[0].count {
      InsertFront(s, x, data);
    } else {
      assert forall y :: y in s[1..] ==> y in s;
      assert s[0] in s;
      InsertOrdered(s[1..], x, data);
      InsertLater(s, x, data);
    }
  }

  /**
   * `sorted_chars_repeats` orders its entries by ascending count and keeps
   * equal counts in first-seen order; it is a permutation of the table.
   */
  lemma {:induction false} SortOrdered(t: seq<Freq>, data: Bytes)
    requires FirstSeenOrder(t, data)
    ensures CountThenFirstSeen(SortByCount(t), data)
    decreases |t|
  {
    if t != [] {
      var p := t[..|t| - 1];
      var x := t[|t| - 1];
      SortOrdered(p, data);
      forall y | y in SortByCount(p) ensures FirstIndex(data, y.sym) < FirstIndex(data, x.sym) {
        assert y in multiset(p);
        var k :| 0 <= k < |p| && p[k] == y;
      }
      InsertOrdered(SortByCount(p), x, data);
    }
  }

  lemma SortedCharsRepeatsFacts(data: Bytes)
    ensures CountThenFirstSeen(SortedCharsRepeats(data), data)
    ensures multiset(SortedCharsRepeats(data)) == multiset(Tally(data))
  {
    TallyOrder(data);
    SortOrdered(Tally(data), data);
  }

  /** The bytes of the entries, as a bag. */
  function SymBag(t: seq<Freq>): multiset<byte>
  {
    if t == [] then multiset{} else multiset{t[0].sym} + SymBag(t[1..])
  }

  lemma {:induction false} SymBagAppend(a: seq<Freq>, b: seq<Freq>)
    ensures SymBag(a + b) == SymBag(a) + SymBag(b)
  {
    if a != [] {
      assert (a + b)[1..] == a[1..] + b;
      SymBagAppend(a[1..], b);
    } else {
      assert a + b == b;
    }
  }

  lemma {:induction false} InsertBag(s: seq<Freq>, x: Freq)
    ensures SymBag(Insert(s, x)) == SymBag(s) + multiset{x.sym}
  {
    var r := Insert(s, x);
    if s == [] {
      assert SymBag(r) == multiset{x.sym} + SymBag(r[1..]);
      assert r[1..] == [];
    } else if x.count < s[0].count {
      assert SymBag(r) == multiset{x.sym} + SymBag(r[1..]);
      assert r[1..] == s;
    } else {
      var t := Insert(s[1..], x);
      assert SymBag(r) == multiset{s[0].sym} + SymBag(t) by {
        assert r[0] == s[0] && r[1..] == t;
      }
      assert SymBag(t) == SymBag(s[1..]) + multiset{x.sym} by {
        InsertBag(s[1..], x);
      }
      assert SymBag(s) == multiset{s[0].sym} + SymBag(s[1..]);
    }
  }

  lemma {:induction false} InsertTotal(s: seq<Freq>, x: Freq)
    ensures Total(Insert(s, x)) == Total(s) + x.count
  {
    assert Total([x]) == x.count by { assert [x][..0] == []; }
    if s == [] {
    } else if x.count < s[0].count {
      TotalAppend([x], s);
    } else {
      InsertTotal(s[1..], x);
      assert s == [s[0]] + s[1..];
      TotalAppend([s[0]], s[1..]);
      TotalAppend([s[0]], Insert(s[1..], x));
      assert Total([s[0]]) == s[0].count by { assert [s[0]][..0] == []; }
    }
  }

  /** Sorting keeps exactly the bytes and the total count of the table. */
  lemma SortKeeps(t: seq<Freq>)
    ensures SymBag(SortByCount(t)) == SymBag(t)
    ensures Total(SortByCount(t)) == Total(t)
    ensures |SortByCount(t)| == |t|
  {
    SortKeepsBag(t);
    SortKeepsTotal(t);
    assert |multiset(SortByCount(t))| == |multiset(t)|;
  }

  lemma {:induction false} SortKeepsBag(t: seq<Freq>)
    ensures SymBag(SortByCount(t)) == SymBag(t)
    decreases |t|
  {
    if t != [] {
      var p, x := t[..|t| - 1], t[|t| - 1];
      var sp := SortByCount(p);
      assert SortByCount(t) == Insert(sp, x);
      SortKeepsBag(p);
      InsertBag(sp, x);
      SymBagLast(t);
    }
  }

  /** The bag of a table is the bag without its last entry, plus that entry's byte. */
  lemma SymBagLast(t: seq<Freq>)
    requires t != []
    ensures SymBag(t) == SymBag(t[..|t| - 1]) + multiset{t[|t| - 1].sym}
  {
    var p, x := t[..|t| - 1], t[|t| - 1];
    assert t == p + [x];
    SymBagAppend(p, [x]);
    assert [x][1..] == [];
  }

  lemma {:induction false} SortKeepsTotal(t: seq<Freq>)
    ensures Total(SortByCount(t)) == Total(t)
    decreases |t|
  {
    if t != [] {
      var p, x := t[..|t| - 1], t[|t| - 1];
      var sp := SortByCount(p);
      assert SortByCount(t) == Insert(sp, x);
      SortKeepsTotal(p);
      InsertTotal(sp, x);
    }
  }

  /** With distinct keys every byte of the table is in its bag exactly once. */
  lemma {:induction false} SymBagDistinct(t: seq<Freq>, b: byte)
    requires DistinctKeys(t)
    ensures SymBag(t)[b] == (if KeyIndex(t, b) < |t| then 1 else 0)
  {
    if t != [] {
      SymBagDistinct(t[1..], b);
      if t[0].sym == b {
        forall j | 0 <= j < |t| - 1 ensures t[1..][j].sym != b {
          assert t[1..][j] == t[j + 1];
        }
      }
    }
  }

  // ---------------------------------------------------------------------------
  // huf_tree with find_lowest_index and find_second_lowest_index
  // ---------------------------------------------------------------------------

  /** The first loop of `huf_tree`: every table entry becomes a leaf node. */
  function Leaves(r: seq<Freq>): (ts: seq<Tree>)
  {
    if r == [] then [] else [Leaf(r[0].count, r[0].sym)] + Leaves(r[1..])
  }

  lemma {:induction false} LeavesAppend(r: seq<Freq>, x: Freq)
    ensures Leaves(r + [x]) == Leaves(r) + [Leaf(x.count, x.sym)]
  {
    if r != [] {
      assert (r + [x])[1..] == r[1..] + [x];
      LeavesAppend(r[1..], x);
    } else {
      assert r + [x] == [x];
    }
  }

  /** Some index other than `skip` exists in a list of length `n`. */
  predicate HasCandidate(n: int, skip: int)
  {
    n >= 2 || (n == 1 && skip != 0)
  }

  /**
   * `k` is the first index, other than `skip`, holding the smallest weight
   * among the indices other than `skip` (`node_or_tuple_value` reads the weight).
   */
  predicate IsFirstMin(s: seq<Tree>, skip: int, k: int)
  {
    0 <= k < |s| && k != skip &&
    (forall j :: 0 <= j < |s| && j != skip ==> s[k].weight <= s[j].weight) &&
    (forall j :: 0 <= j < k && j != skip ==> s[k].weight < s[j].weight)
  }

  lemma FirstMinUnique(s: seq<Tree>, skip: int, a: int, b: int)
    requires IsFirstMin(s, skip, a) && IsFirstMin(s, skip, b)
    ensures a == b
  {
    assert s[a].weight <= s[b].weight;
    assert s[b].weight <= s[a].weight;
  }

  /** The first index of the minimum weight, skipping index `skip`. */
  function ArgMin(s: seq<Tree>, skip: int): (k: nat)
    requires HasCandidate(|s|, skip)
    ensures k < |s| && k != skip
    decreases |s|
  {
    var n := |s| - 1;
    if !HasCandidate(n, skip) then n
    else if n == skip then ArgMin(s[..n], skip)
    else
      var k := ArgMin(s[..n], skip);
      if s[n].weight < s[k].weight then n else k
  }

  /** `ArgMin` is the first index of the least weight among the indices other than `skip`. */
  lemma {:induction false} ArgMinIsFirstMin(s: seq<Tree>, skip: int)
    requires HasCandidate(|s|, skip)
    ensures IsFirstMin(s, skip, ArgMin(s, skip))
    decreases |s|
  {
    var n := |s| - 1;
    if HasCandidate(n, skip) {
      ArgMinIsFirstMin(s[..n], skip);
      var k := ArgMin(s[..n], skip);
      assert forall j :: 0 <= j < n ==> s[..n][j] == s[j];
    }
  }

  /** `find_lowest_index`: a scan that only moves on a strictly smaller weight. */
  method FindLowestIndex(s: seq<Tree>) returns (lo: nat)
    requires |s| >= 1
    ensures IsFirstMin(s, -1, lo)
    ensures lo == ArgMin(s, -1)
  {
    lo := 0;
    var lowestValue := s[0].weight;
    for i := 0 to |s|
      invariant lo < |s| && lo <= i && lowestValue == s[lo].weight
      invariant forall j :: 0 <= j < i ==> s[lo].weight <= s[j].weight
      invariant forall j :: 0 <= j < lo ==> s[lo].weight < s[j].weight
    {
      if s[i].weight < lowestValue {
        lowestValue := s[i].weight;
        lo := i;
      }
    }
    ArgMinIsFirstMin(s, -1);
    FirstMinUnique(s, -1, lo, ArgMin(s, -1));
  }

  /**
   * `find_second_lowest_index`: the same scan started at index 0, or at 1 when
   * the lowest is at 0, and stepping over the lowest index.
   */
  method FindSecondLowestIndex(s: seq<Tree>, lowest: nat) returns (second: nat)
    requires |s| >= 2 && lowest < |s|
    ensures IsFirstMin(s, lowest, second)
    ensures second == ArgMin(s, lowest)
  {
    second := 0;
    var secondValue := s[0].weight;
    if lowest == 0 {
      second := 1;
      secondValue := s[1].weight;
    }
    for i := 0 to |s|
      invariant second < |s| && second != lowest && secondValue == s[second].weight
      invariant second <= i || (second == 1 && lowest == 0 && i == 0)
      invariant forall j :: 0 <= j < i && j != lowest ==> s[second].weight <= s[j].weight
      invariant forall j :: 0 <= j < second && j != lowest ==> s[second].weight < s[j].weight
    {
      if i == lowest {
        continue;
      }
      if s[i].weight < secondValue {
        secondValue := s[i].weight;
        second := i;
      }
    }
    ArgMinIsFirstMin(s, lowest);
    FirstMinUnique(s, lowest, second, ArgMin(s, lowest));
  }

  /**
   * One merge as `huf_tree` performs it on its list: a new node of weight `w`
   * whose children are the entries at `l < h` in index order is written over
   * slot `h`, and then slot `l` is deleted.
   */
  function MergeAt(s: seq<Tree>, l: nat, h: nat, w: nat): seq<Tree>
    requires l < h < |s|
  {
    var u := s[h := Node(w, s[l], s[h])];
    u[..l] + u[l + 1..]
  }

  /** The merge of the entries at two distinct indices, the lower index becoming the left child. */
  function MergeOf(s: seq<Tree>, first: nat, second: nat): seq<Tree>
    requires first < |s| && second < |s| && first != second
  {
    var left := if first < second then first else second;
    var right := if first < second then second else first;
    MergeAt(s, left, right, s[first].weight + s[second].weight)
  }

  /** The two in-place updates of the loop body perform `MergeOf`, and leave one tree fewer. */
  lemma MergeInPlace(s: seq<Tree>, first: nat, second: nat, l: nat, h: nat, w: nat)
    requires first < |s| && second < |s| && first != second
    requires l == (if first < second then first else second)
    requires h == (if first < second then second else first)
    requires w == s[first].weight + s[second].weight
    ensures var u := s[h := Node(w, s[l], s[h])];
            u[..l] + u[l + 1..] == MergeOf(s, first, second) && |u[..l] + u[l + 1..]| == |s| - 1
  {
  }

  /** One round of the loop in `huf_tree`. */
  function MergeStep(s: seq<Tree>): (r: seq<Tree>)
    requires |s| >= 2
    ensures |r| == |s| - 1
  {
    var first := ArgMin(s, -1);
    MergeOf(s, first, ArgMin(s, first))
  }

  /** The list `huf_tree` returns: merge rounds until at most one tree is left. */
  function HufTreeSpec(s: seq<Tree>): (r: seq<Tree>)
    ensures |r| == (if s == [] then 0 else 1)
    decreases |s|
  {
    if |s| <= 1 then s else HufTreeSpec(MergeStep(s))
  }

  /** The first loop of `huf_tree`: one leaf per entry, in order. */
  method WrapLeaves(sorted: seq<Freq>) returns (lst: seq<Tree>)
    ensures lst == Leaves(sorted)
  {
    lst := [];
    for i := 0 to |sorted|
      invariant lst == Leaves(sorted[..i])
    {
      LeavesAppend(sorted[..i], sorted[i]);
      assert sorted[..i + 1] == sorted[..i] + [sorted[i]];
      lst := lst + [Leaf(sorted[i].count, sorted[i].sym)];
    }
    assert sorted[..|sorted|] == sorted;
  }

  /** `huf_tree`: wrap each entry as a leaf, then merge in place until one tree remains. */
  method HufTree(sorted: seq<Freq>) returns (lst: seq<Tree>)
    ensures lst == HufTreeSpec(Leaves(sorted))
  {
    lst := WrapLeaves(sorted);
    ghost var goal := HufTreeSpec(lst);
    while |lst| > 1
      invariant HufTreeSpec(lst) == goal
      decreases |lst|
    {
      var first := FindLowestIndex(lst);
      var second := FindSecondLowestIndex(lst, first);
      var newData := lst[first].weight + lst[second].weight;
      var left := if first < second then first else second;
      var right := if first < second then second else first;
      MergeInPlace(lst, first, second, left, right, newData);
      lst := lst[right := Node(newData, lst[left], lst[right])];
      lst := lst[..left] + lst[left + 1..];
    }
  }

  // ---------------------------------------------------------------------------
  // What every merge round keeps
  // ---------------------------------------------------------------------------

  /** The leaf bytes of a tree, as a bag. */
  function LeafBag(t: Tree): multiset<byte>
  {
    match t
    case Leaf(_, b) => multiset{b}
    case Node(_, l, rt) => LeafBag(l) + LeafBag(rt)
  }

  /** Every internal count is the sum of its children's, and every leaf count is positive. */
  predicate WellWeighted(t: Tree)
  {
    match t
    case Leaf(w, _) => w >= 1
    case Node(w, l, rt) => w == l.weight + rt.weight && WellWeighted(l) && WellWeighted(rt)
  }

  function ListWeight(s: seq<Tree>): nat
  {
    if s == [] then 0 else s[0].weight + ListWeight(s[1..])
  }

  function ListBag(s: seq<Tree>): multiset<byte>
  {
    if s == [] then multiset{} else LeafBag(s[0]) + ListBag(s[1..])
  }

  predicate AllWellWeighted(s: seq<Tree>)
  {
    forall i :: 0 <= i < |s| ==> WellWeighted(s[i])
  }

  lemma {:induction false} ListAppend(a: seq<Tree>, b: seq<Tree>)
    ensures ListWeight(a + b) == ListWeight(a) + ListWeight(b)
    ensures ListBag(a + b) == ListBag(a) + ListBag(b)
  {
    if a == [] {
      assert a + b == b;
    } else {
      assert (a + b)[1..] == a[1..] + b;
      ListAppend(a[1..], b);
    }
  }

  lemma MergeAtShape(s: seq<Tree>, l: nat, h: nat, w: nat)
    requires l < h < |s|
    ensures MergeAt(s, l, h, w) == s[..l] + s[l + 1..h] + [Node(w, s[l], s[h])] + s[h + 1..]
  {
    var u := s[h := Node(w, s[l], s[h])];
    assert u[..l] == s[..l];
    assert u[l + 1..] == s[l + 1..h] + [Node(w, s[l], s[h])] + s[h + 1..];
  }

  lemma ListSingle(t: Tree)
    ensures ListWeight([t]) == t.weight && ListBag([t]) == LeafBag(t)
  {
    assert [t][1..] == [];
  }

  lemma MovePart(a: seq<Tree>, x: Tree, b: seq<Tree>, y: Tree, c: seq<Tree>, node: Tree)
    requires node.weight == x.weight + y.weight && LeafBag(node) == LeafBag(x) + LeafBag(y)
    ensures ListWeight(a + b + [node] + c) == ListWeight(a + [x] + b + [y] + c)
    ensures ListBag(a + b + [node] + c) == ListBag(a + [x] + b + [y] + c)
  {
    ListAppend(a + [x] + b + [y], c);
    ListAppend(a + [x] + b, [y]);
    ListAppend(a + [x], b);
    ListAppend(a, [x]);
    ListAppend(a + b + [node], c);
    ListAppend(a + b, [node]);
    ListAppend(a, b);
    ListSingle(node);
    ListSingle(x);
    ListSingle(y);
  }

  /** A merge keeps the total weight and the bag of leaf bytes. */
  lemma MergeAtKeeps(s: seq<Tree>, l: nat, h: nat, w: nat)
    requires l < h < |s| && w == s[l].weight + s[h].weight
    ensures ListWeight(MergeAt(s, l, h, w)) == ListWeight(s)
    ensures ListBag(MergeAt(s, l, h, w)) == ListBag(s)
  {
    var node := Node(w, s[l], s[h]);
    SplitFive(s, l, h);
    MergeAtShape(s, l, h, w);
    MovePart(s[..l], s[l], s[l + 1..h], s[h], s[h + 1..], node);
  }

  lemma SplitFive(s: seq<Tree>, l: nat, h: nat)
    requires l < h < |s|
    ensures s == s[..l] + [s[l]] + s[l + 1..h] + [s[h]] + s[h + 1..]
  {
    assert s[..h] == s[..l] + [s[l]] + s[l + 1..h];
    assert s == s[..h] + [s[h]] + s[h + 1..];
  }

  /** A merge builds a well-weighted node and leaves the other trees as they were. */
  lemma MergeAtWeighted(s: seq<Tree>, l: nat, h: nat, w: nat)
    requires l < h < |s| && w == s[l].weight + s[h].weight
    ensures AllWellWeighted(s) ==> AllWellWeighted(MergeAt(s, l, h, w))
  {
    var node := Node(w, s[l], s[h]);
    var r := MergeAt(s, l, h, w);
    if AllWellWeighted(s) {
      forall i | 0 <= i < |r| ensures WellWeighted(r[i]) {
        if i < l {
          assert r[i] == s[i];
        } else if i < h - 1 {
          assert r[i] == s[i + 1];
        } else if i == h - 1 {
          assert r[i] == node;
        } else {
          assert r[i] == s[i + 1];
        }
      }
    }
  }

  /**
   * Each round of `huf_tree` keeps the total weight, the bag of leaf bytes and
   * the weight discipline of every tree in the list.
   */
  lemma MergeStepKeeps(s: seq<Tree>)
    requires |s| >= 2
    ensures ListWeight(MergeStep(s)) == ListWeight(s)
    ensures ListBag(MergeStep(s)) == ListBag(s)
    ensures AllWellWeighted(s) ==> AllWellWeighted(MergeStep(s))
  {
    var l, h, w := MergeStepIsMergeAt(s);
    MergeAtKeeps(s, l, h, w);
    MergeAtWeighted(s, l, h, w);
  }

  /** A round merges the two picked entries, the lower index becoming the left child. */
  lemma MergeStepIsMergeAt(s: seq<Tree>) returns (l: nat, h: nat, w: nat)
    requires |s| >= 2
    ensures l < h < |s| && w == s[l].weight + s[h].weight
    ensures MergeStep(s) == MergeAt(s, l, h, w)
  {
    var first := ArgMin(s, -1);
    var second := ArgMin(s, first);
    l := if first < second then first else second;
    h := if first < second then second else first;
    w := s[first].weight + s[second].weight;
  }

  /**
   * One round of `huf_tree` spelled out: the first index of the least weight
   * and the first index of the least weight among the others are merged into a
   * node of their summed weight, the lower index becoming the left child; the
   * node takes the higher slot, the lower slot is deleted, and every other tree
   * keeps its relative order.
   */
  lemma MergeRound(s: seq<Tree>) returns (first: nat, second: nat)
    requires |s| >= 2
    ensures IsFirstMin(s, -1, first) && IsFirstMin(s, first, second)
    ensures var l := if first < second then first else second;
            var h := if first < second then second else first;
            MergeStep(s) == s[..l] + s[l + 1..h] + [Node(s[first].weight + s[second].weight, s[l], s[h])] + s[h + 1..]
  {
    first := ArgMin(s, -1);
    second := ArgMin(s, first);
    ArgMinIsFirstMin(s, -1);
    ArgMinIsFirstMin(s, first);
    var l := if first < second then first else second;
    var h := if first < second then second else first;
    MergeAtShape(s, l, h, s[first].weight + s[second].weight);
  }

  lemma {:induction false} HufTreeSpecKeeps(s: seq<Tree>)
    ensures ListWeight(HufTreeSpec(s)) == ListWeight(s)
    ensures ListBag(HufTreeSpec(s)) == ListBag(s)
    ensures AllWellWeighted(s) ==> AllWellWeighted(HufTreeSpec(s))
    decreases |s|
  {
    if |s| > 1 {
      MergeStepKeeps(s);
      HufTreeSpecKeeps(MergeStep(s));
    }
  }

  lemma {:induction false} LeavesKeep(r: seq<Freq>)
    ensures ListWeight(Leaves(r)) == Total(r)
    ensures ListBag(Leaves(r)) == SymBag(r)
    ensures (forall y :: y in r ==> y.count >= 1) ==> AllWellWeighted(Leaves(r))
    ensures |Leaves(r)| == |r|
  {
    if r != [] {
      LeavesKeep(r[1..]);
      TotalFront(r);
      assert forall y :: y in r[1..] ==> y in r;
    }
  }

  lemma TotalFront(r: seq<Freq>)
    requires r != []
    ensures Total(r) == r[0].count + Total(r[1..])
  {
    assert r == [r[0]] + r[1..];
    TotalAppend([r[0]], r[1..]);
    assert Total([r[0]]) == r[0].count by { assert [r[0]][..0] == []; }
  }

  // ---------------------------------------------------------------------------
  // create_huf_tree
  // ---------------------------------------------------------------------------

  /** The root `create_huf_tree` returns; `None` is the `IndexError` on empty data. */
  function HufRoot(data: Bytes): Option<Tree>
  {
    var lst := HufTreeSpec(Leaves(SortedCharsRepeats(data)));
    if lst == [] then None else Some(lst[0])
  }

  /** `create_huf_tree`: count, sort, merge, and take the first element of the list. */
  method CreateHufTree(data: Bytes) returns (root: Option<Tree>)
    ensures root == HufRoot(data)
  {
    var table := CountEachChar(data);
    var sorted := SortByCount(table);
    var lst := HufTree(sorted);
    if |lst| == 0 {
      root := None;
    } else {
      root := Some(lst[0]);
    }
  }

  lemma SymBagTally(data: Bytes)
    ensures forall b :: SymBag(Tally(data))[b] == (if b in data then 1 else 0)
  {
    TallyCounts(data);
    TallyKeys(data);
    forall b ensures SymBag(Tally(data))[b] == (if b in data then 1 else 0) {
      SymBagDistinct(Tally(data), b);
    }
  }

  /** The sorted table holds the bytes of the data once each, with positive counts summing to its length. */
  lemma SortedFacts(data: Bytes)
    ensures Total(SortedCharsRepeats(data)) == |data|
    ensures forall b :: SymBag(SortedCharsRepeats(data))[b] == (if b in data then 1 else 0)
    ensures forall y :: y in SortedCharsRepeats(data) ==> y.count >= 1
    ensures |SortedCharsRepeats(data)| == 0 <==> data == []
  {
    var t := Tally(data);
    var sorted := SortedCharsRepeats(data);
    assert sorted == SortByCount(t);
    SortKeeps(t);
    assert Total(sorted) == |data| by {
      TallyCounts(data);
    }
    SymBagTally(data);
    forall y | y in sorted ensures y.count >= 1 {
      assert y in multiset(t);
      var k :| 0 <= k < |t| && t[k] == y;
      TallyKeys(data);
    }
    assert |sorted| == 0 <==> data == [] by {
      TallyKeys(data);
      if data != [] {
        assert KeyIndex(t, data[0]) < |t|;
      }
    }
  }

  /**
   * The root of the Huffman tree exists exactly when the data is not empty; its
   * count is the length of the data, each internal count is the sum of its
   * children's, and each distinct byte of the data sits at exactly one leaf.
   */
  lemma HufRootFacts(data: Bytes)
    ensures HufRoot(data).None? <==> data == []
    ensures HufRoot(data).Some? ==> HufRoot(data).value.weight == |data|
    ensures HufRoot(data).Some? ==> WellWeighted(HufRoot(data).value)
    ensures HufRoot(data).Some? ==>
      forall b :: LeafBag(HufRoot(data).value)[b] == (if b in data then 1 else 0)
  {
    var sorted := SortedCharsRepeats(data);
    SortedFacts(data);
    LeavesKeep(sorted);
    HufTreeSpecKeeps(Leaves(sorted));
    var lst := HufTreeSpec(Leaves(sorted));
    if data != [] {
      assert lst == [lst[0]];
      ListSingle(lst[0]);
    }
  }

  // ---------------------------------------------------------------------------
  // create_huf_map and the single-symbol override in compress_huf
  // ---------------------------------------------------------------------------

  /**
   * `create_huf_map`: at a leaf the byte gets the path walked so far; at an
   * internal node the right subtree is visited with `1` appended, then the
   * left subtree with `0` appended, threading the same dictionary.
   */
  function CreateHufMap(t: Tree, m: map<byte, Bits>, path: Bits): (r: map<byte, Bits>)
    ensures r.Keys == m.Keys + Syms(t)
  {
    match t
    case Leaf(_, b) => m[b := path]
    case Node(_, l, rt) => CreateHufMap(l, CreateHufMap(rt, m, path + [true]), path + [false])
  }

  /**
   * The root path of a byte: `false` for a left step, `true` for a right step,
   * towards the leftmost leaf holding it (the left subtree is visited last and
   * so has the final word).
   */
  function Code(t: Tree, b: byte): (c: Bits)
    requires b in Syms(t)
  {
    match t
    case Leaf(_, _) => []
    case Node(_, l, rt) => if b in Syms(l) then [false] + Code(l, b) else [true] + Code(rt, b)
  }

  /** Entries for bytes that are not leaves of `t` are left as they were. */
  lemma {:induction false} HufMapOther(t: Tree, m: map<byte, Bits>, path: Bits, b: byte)
    requires b in m && b !in Syms(t)
    ensures CreateHufMap(t, m, path)[b] == m[b]
  {
    match t
    case Leaf(_, _) =>
    case Node(_, l, rt) =>
      HufMapOther(rt, m, path + [true], b);
      HufMapOther(l, CreateHufMap(rt, m, path + [true]), path + [false], b);
  }

  /** Every leaf byte is mapped to its root path, appended to the path already walked. */
  lemma {:induction false} HufMapCode(t: Tree, m: map<byte, Bits>, path: Bits, b: byte)
    requires b in Syms(t)
    ensures CreateHufMap(t, m, path)[b] == path + Code(t, b)
  {
    match t
    case Leaf(_, _) =>
      assert path + [] == path;
    case Node(_, l, rt) =>
      assert Code(t, b) == if b in Syms(l) then [false] + Code(l, b) else [true] + Code(rt, b);
      var m1 := CreateHufMap(rt, m, path + [true]);
      if b in Syms(l) {
        HufMapCode(l, m1, path + [false], b);
        Regroup(path, [false], Code(l, b));
      } else {
        HufMapCode(rt, m, path + [true], b);
        HufMapOther(l, m1, path + [false], b);
        Regroup(path, [true], Code(rt, b));
      }
  }

  predicate IsPrefix(a: Bits, b: Bits)
  {
    |a| <= |b| && b[..|a|] == a
  }

  /** The codes of two different bytes are never prefixes of one another. */
  lemma {:induction false} CodesPrefixFree(t: Tree, a: byte, b: byte)
    requires a in Syms(t) && b in Syms(t) && a != b
    ensures !IsPrefix(Code(t, a), Code(t, b))
  {
    match t
    case Node(_, l, rt) =>
      if a in Syms(l) && b in Syms(l) {
        CodesPrefixFree(l, a, b);
        assert Code(t, b)[1..] == Code(l, b);
      } else if a !in Syms(l) && b !in Syms(l) {
        CodesPrefixFree(rt, a, b);
        assert Code(t, b)[1..] == Code(rt, b);
      } else {
        assert Code(t, a)[0] != Code(t, b)[0];
      }
  }

  /**
   * The map `compress_huf` encodes with: `create_huf_map` from the root with
   * an empty path, except that a map with a single entry has its code forced
   * to `1`.
   */
  function FinalMap(root: Tree): (m: map<byte, Bits>)
    ensures m.Keys == Syms(root)
  {
    var m := CreateHufMap(root, map[], []);
    if |m| == 1 then map b | b in m :: [true] else m
  }

  lemma LeafBagSyms(t: Tree)
    ensures forall b :: b in Syms(t) <==> LeafBag(t)[b] > 0
  {
  }

  /** When no byte occurs at two leaves, an internal node holds at least two bytes. */
  lemma NodeHasTwoSyms(t: Tree)
    requires t.Node?
    requires forall b :: LeafBag(t)[b] <= 1
    ensures |Syms(t)| >= 2
  {
    LeafBagSyms(t.left);
    LeafBagSyms(t.right);
    SymsNonEmpty(t.left);
    SymsNonEmpty(t.right);
    var a :| a in Syms(t.left);
    var b :| b in Syms(t.right);
    assert a != b by {
      assert LeafBag(t)[b] == LeafBag(t.left)[b] + LeafBag(t.right)[b];
    }
    assert b in Syms(t) - {a};
    assert |Syms(t) - {a}| >= 1;
  }

  lemma {:induction false} SymsNonEmpty(t: Tree)
    ensures Syms(t) != {}
  {
    match t
    case Leaf(_, _) =>
    case Node(_, l, _) => SymsNonEmpty(l);
  }

  /** A lone leaf gets the code `1`. */
  lemma FinalMapLeaf(root: Tree)
    requires root.Leaf?
    ensures FinalMap(root) == map[root.sym := [true]]
  {
    var m := CreateHufMap(root, map[], []);
    assert m == map[root.sym := []];
    assert |m| == 1;
  }

  /** In a tree whose leaf bytes are distinct, every byte is coded by its root path. */
  lemma FinalMapNode(root: Tree, b: byte)
    requires root.Node?
    requires forall c :: LeafBag(root)[c] <= 1
    requires b in Syms(root)
    ensures FinalMap(root)[b] == Code(root, b)
  {
    var m := CreateHufMap(root, map[], []);
    HufMapCode(root, map[], [], b);
    NodeHasTwoSyms(root);
    assert |m| != 1 by { assert m.Keys == Syms(root); }
    assert [] + Code(root, b) == Code(root, b);
  }

  /** Every byte of the data is a leaf of its tree, so the final map has a code for it. */
  lemma RootCoversData(data: Bytes)
    requires HufRoot(data).Some?
    ensures forall i :: 0 <= i < |data| ==> data[i] in FinalMap(HufRoot(data).value)
  {
    var root := HufRoot(data).value;
    HufRootFacts(data);
    LeafBagSyms(root);
    forall i | 0 <= i < |data| ensures data[i] in Syms(root) {
      assert LeafBag(root)[data[i]] == 1;
    }
  }
}
