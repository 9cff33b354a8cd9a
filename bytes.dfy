/**
 * Byte strings and the handful of Python `bytes`/`str` operations the archive
 * tool relies on: `split`/`join` on a separator, `str(n)`, `int(s)` and strict
 * UTF-8 validity (what `.decode()` checks).  A Python `str` is represented by
 * its UTF-8 encoding throughout the model.
 */
module Bytes {

  type byte = b: int | 0 <= b < 256
  type Bytes = seq<byte>

  datatype Option<T> = None | Some(value: T)

  const CR: byte := 13
  const LF: byte := 10
  const COMMA: byte := 44
  const OPEN: byte := 91   // '['
  const CLOSE: byte := 93  // ']'
  const DOT: byte := 46
  const SLASH: byte := 47
  const LOWER_L: byte := 108
  const CRLF: Bytes := [CR, LF]

  /** The bytes of an ASCII literal. */
  function Ascii(s: string): (r: Bytes)
    requires forall i :: 0 <= i < |s| ==> s[i] < 128 as char
    ensures |r| == |s|
    ensures forall i :: 0 <= i < |s| ==> r[i] == s[i] as int
  {
    seq(|s|, i requires 0 <= i < |s| => s[i] as int)
  }

  /** `bytes * n` in Python: n copies, none when n <= 0. */
  function Repeat(u: Bytes, n: int): Bytes
    decreases if n < 0 then 0 else n
  {
    if n <= 0 then [] else u + Repeat(u, n - 1)
  }

  function Flatten(parts: seq<Bytes>): (r: Bytes)
    ensures parts == [] ==> r == []
  {
    if parts == [] then [] else parts[0] + Flatten(parts[1..])
  }

  lemma {:induction false} FlattenAppend(a: seq<Bytes>, b: seq<Bytes>)
    ensures Flatten(a + b) == Flatten(a) + Flatten(b)
  {
    if a == [] {
      assert a + b == b;
    } else {
      assert (a + b)[1..] == a[1..] + b;
      FlattenAppend(a[1..], b);
    }
  }

  /* ---------------------------------------------------------------------- */
  /* Searching and splitting                                                 */

  predicate OccursAt(s: Bytes, sep: Bytes, i: int)
  {
    0 <= i && i + |sep| <= |s| && s[i..i + |sep|] == sep
  }

  /** `s.find(sep)`: the first index where `sep` occurs, or -1. */
  function Find(s: Bytes, sep: Bytes): (r: int)
    requires |sep| > 0
    ensures -1 <= r <= |s| - |sep| || r == -1
    ensures r >= 0 ==> OccursAt(s, sep, r)
    ensures r >= 0 ==> forall j :: 0 <= j < r ==> !OccursAt(s, sep, j)
    ensures r < 0 ==> forall j :: 0 <= j ==> !OccursAt(s, sep, j)
    decreases |s|
  {
    if |s| < |sep| then -1
    else if s[..|sep|] == sep then 0
    else
      var k := Find(s[1..], sep);
      assert forall j :: 1 <= j ==> (OccursAt(s, sep, j) <==> OccursAt(s[1..], sep, j - 1)) by {
        forall j | 1 <= j ensures OccursAt(s, sep, j) <==> OccursAt(s[1..], sep, j - 1) {
          OccursShift(s, sep, j);
        }
      }
      if k < 0 then -1 else k + 1
  }

  lemma OccursShift(s: Bytes, sep: Bytes, j: int)
    requires |s| >= 1 && 1 <= j
    ensures OccursAt(s, sep, j) <==> OccursAt(s[1..], sep, j - 1)
  {
    if j + |sep| <= |s| {
      assert s[j..j + |sep|] == s[1..][j - 1..j - 1 + |sep|];
    }
  }

  /** `s.split(sep)` in Python, for a non-empty separator. */
  function Split(s: Bytes, sep: Bytes): (r: seq<Bytes>)
    requires |sep| > 0
    ensures |r| >= 1
    decreases |s|
  {
    var i := Find(s, sep);
    if i < 0 then [s] else [s[..i]] + Split(s[i + |sep|..], sep)
  }

  /** `sep.join(parts)` in Python. */
  function Join(parts: seq<Bytes>, sep: Bytes): (r: Bytes)
    ensures |parts| == 1 ==> r == parts[0]
  {
    if |parts| == 0 then []
    else if |parts| == 1 then parts[0]
    else parts[0] + sep + Join(parts[1..], sep)
  }

  lemma JoinCons(x: Bytes, parts: seq<Bytes>, sep: Bytes)
    requires |parts| >= 1
    ensures Join([x] + parts, sep) == x + sep + Join(parts, sep)
  {
    assert ([x] + parts)[1..] == parts;
  }

  lemma SplitAtFind(s: Bytes, sep: Bytes)
    requires |sep| > 0 && Find(s, sep) >= 0
    ensures s == s[..Find(s, sep)] + sep + s[Find(s, sep) + |sep|..]
  {
    var i := Find(s, sep);
    assert OccursAt(s, sep, i);
    SliceThree(s, i, i + |sep|);
  }

  lemma SliceThree(s: Bytes, i: nat, j: nat)
    requires i <= j <= |s|
    ensures s == s[..i] + s[i..j] + s[j..]
  {
  }

  /** Joining the pieces of a split gives the original back. */
  lemma {:induction false} JoinSplit(s: Bytes, sep: Bytes)
    requires |sep| > 0
    ensures Join(Split(s, sep), sep) == s
    decreases |s|
  {
    var i := Find(s, sep);
    if i >= 0 {
      var rest := s[i + |sep|..];
      JoinSplit(rest, sep);
      JoinCons(s[..i], Split(rest, sep), sep);
      SplitAtFind(s, sep);
    }
  }

  /** A string in which the separator never occurs splits into itself. */
  lemma SplitNone(s: Bytes, sep: Bytes)
    requires |sep| > 0
    requires forall j :: 0 <= j ==> !OccursAt(s, sep, j)
    ensures Split(s, sep) == [s]
  {
  }

  /** Splitting `a + sep + b` at its first separator, given that no separator starts inside `a`. */
  lemma SplitFirst(a: Bytes, sep: Bytes, b: Bytes)
    requires |sep| > 0
    requires forall j :: 0 <= j < |a| ==> !OccursAt(a + sep + b, sep, j)
    ensures Split(a + sep + b, sep) == [a] + Split(b, sep)
  {
    var s := a + sep + b;
    assert OccursAt(s, sep, |a|) by { assert s[|a|..|a| + |sep|] == sep; }
    var i := Find(s, sep);
    assert i == |a|;
    assert s[..i] == a;
    assert s[i + |sep|..] == b;
  }

  /** A separator of one byte that `a` does not contain cannot start inside `a`. */
  lemma SplitFirstByte(a: Bytes, c: byte, b: Bytes)
    requires c !in a
    ensures Split(a + [c] + b, [c]) == [a] + Split(b, [c])
  {
    var s := a + [c] + b;
    forall j | 0 <= j < |a| ensures !OccursAt(s, [c], j) {
      assert s[j] == a[j];
      assert s[j..j + 1] == [s[j]];
    }
    SplitFirst(a, [c], b);
  }

  lemma SplitNoByte(a: Bytes, c: byte)
    requires c !in a
    ensures Split(a, [c]) == [a]
  {
    forall j | 0 <= j ensures !OccursAt(a, [c], j) {
      if j + 1 <= |a| { assert a[j..j + 1] == [a[j]]; }
    }
  }

  /** Splitting on a byte that no part contains gives the parts of a join back. */
  lemma {:induction false} SplitJoin(parts: seq<Bytes>, c: byte)
    requires |parts| >= 1 && forall i :: 0 <= i < |parts| ==> c !in parts[i]
    ensures Split(Join(parts, [c]), [c]) == parts
    decreases |parts|
  {
    if |parts| == 1 {
      SplitNoByte(parts[0], c);
    } else {
      SplitJoin(parts[1..], c);
      SplitFirstByte(parts[0], c, Join(parts[1..], [c]));
      assert parts == [parts[0]] + parts[1..];
    }
  }

  /** No piece of a split on a single byte contains that byte. */
  lemma {:induction false} SplitPartsFree(s: Bytes, c: byte)
    ensures forall i :: 0 <= i < |Split(s, [c])| ==> c !in Split(s, [c])[i]
    decreases |s|
  {
    var k := Find(s, [c]);
    var head := if k < 0 then s else s[..k];
    forall j | 0 <= j < |head| ensures head[j] != c {
      assert !OccursAt(s, [c], j);
      assert s[j..j + 1] == [s[j]];
    }
    if k >= 0 {
      SplitPartsFree(s[k + 1..], c);
    }
  }

  function Last<T>(s: seq<T>): T
    requires |s| >= 1
  {
    s[|s| - 1]
  }

  /** No CR immediately followed by LF. */
  predicate NoCrlf(s: Bytes)
  {
    forall i :: 0 <= i < |s| - 1 ==> !(s[i] == CR && s[i + 1] == LF)
  }

  lemma NoCrlfNoOccurrence(s: Bytes)
    requires NoCrlf(s)
    ensures forall j :: 0 <= j ==> !OccursAt(s, CRLF, j)
  {
    forall j | 0 <= j ensures !OccursAt(s, CRLF, j) {
      if j + 2 <= |s| {
        assert s[j..j + 2] == [s[j], s[j + 1]];
      }
    }
  }

  /** Splitting `a + CRLF + b` on CRLF when `a` holds no CRLF pair. */
  lemma SplitCrlf(a: Bytes, b: Bytes)
    requires NoCrlf(a)
    ensures Split(a + CRLF + b, CRLF) == [a] + Split(b, CRLF)
  {
    var s := a + CRLF + b;
    forall j | 0 <= j < |a| ensures !OccursAt(s, CRLF, j) {
      assert s[j..j + 2] == [s[j], s[j + 1]];
      if j < |a| - 1 {
        assert s[j] == a[j] && s[j + 1] == a[j + 1];
      } else {
        assert s[j + 1] == CR;
      }
    }
    SplitFirst(a, CRLF, b);
  }

  lemma NoCrlfAppend(a: Bytes, b: Bytes)
    requires NoCrlf(a) && NoCrlf(b)
    requires a == [] || a[|a| - 1] != CR
    ensures NoCrlf(a + b)
  {
    var s := a + b;
    forall i | 0 <= i < |s| - 1 ensures !(s[i] == CR && s[i + 1] == LF) {
      if i < |a| - 1 {
        assert s[i] == a[i] && s[i + 1] == a[i + 1];
      } else if i == |a| - 1 {
        assert s[i] == a[i];
      } else {
        assert s[i] == b[i - |a|] && s[i + 1] == b[i + 1 - |a|];
      }
    }
  }

  /* ---------------------------------------------------------------------- */
  /* `str(n)` and `int(s)`                                                    */

  predicate IsDigit(b: byte) { 48 <= b <= 57 }

  /** The decimal digits of a natural number, most significant first. */
  function Digits(n: nat): (r: Bytes)
    ensures |r| >= 1
    decreases n
  {
    if n < 10 then [48 + n] else Digits(n / 10) + [48 + n % 10]
  }

  /** `str(n).encode()` for a Python int. */
  function Decimal(n: int): (r: Bytes)
    ensures |r| >= 1
    decreases if n < 0 then 1 else 0
  {
    if n < 0 then [45] + Decimal(-n) else Digits(n)
  }

  /** Every byte of `Digits(n)` is a decimal digit. */
  lemma {:induction false} DigitsAreDigits(n: nat)
    ensures forall i :: 0 <= i < |Digits(n)| ==> IsDigit(Digits(n)[i])
    decreases n
  {
    if n >= 10 {
      DigitsAreDigits(n / 10);
    }
  }

  /** `str(n)` of a non-negative number is all decimal digits. */
  lemma DecimalDigits(n: nat)
    ensures Decimal(n) == Digits(n)
    ensures forall i :: 0 <= i < |Decimal(n)| ==> IsDigit(Decimal(n)[i])
  {
    DigitsAreDigits(n);
  }

  /** The value of a string of decimal digits. */
  function DigitsValue(d: Bytes): int
  {
    if d == [] then 0
    else DigitsValue(d[..|d| - 1]) * 10 + (d[|d| - 1] as int - 48)
  }

  lemma {:induction false} DigitsValueOfDigits(n: nat)
    ensures DigitsValue(Digits(n)) == n
    decreases n
  {
    if n >= 10 {
      DigitsValueOfDigits(n / 10);
      var d := Digits(n);
      assert d[..|d| - 1] == Digits(n / 10);
    }
  }

  /** Characters that Python's `int()` strips around a number (the ASCII ones). */
  predicate IsSpace(b: byte) { 9 <= b <= 13 || 28 <= b <= 32 }

  function StripLeft(s: Bytes): Bytes
  {
    if s != [] && IsSpace(s[0]) then StripLeft(s[1..]) else s
  }

  function StripRight(s: Bytes): Bytes
  {
    if s != [] && IsSpace(s[|s| - 1]) then StripRight(s[..|s| - 1]) else s
  }

  /**
   * Digits with single underscores between them, as Python's `int()` admits:
   * non-empty, no leading, trailing or doubled '_'.
   */
  predicate WellFormedDigits(d: Bytes)
  {
    && |d| >= 1
    && IsDigit(d[0]) && IsDigit(d[|d| - 1])
    && (forall i :: 0 <= i < |d| ==> IsDigit(d[i]) || d[i] == 95)
    && NoDoubleUnderscore(d)
  }

  predicate NoDoubleUnderscore(d: Bytes)
  {
    |d| < 2 || (!(d[0] == 95 && d[1] == 95) && NoDoubleUnderscore(d[1..]))
  }

  /** The digits with the underscores removed. */
  function DropUnderscores(d: Bytes): Bytes
  {
    if d == [] then []
    else if d[0] == 95 then DropUnderscores(d[1..])
    else [d[0]] + DropUnderscores(d[1..])
  }

  lemma {:induction false} DropNoUnderscores(d: Bytes)
    requires forall i :: 0 <= i < |d| ==> IsDigit(d[i])
    ensures DropUnderscores(d) == d
  {
    if d != [] {
      DropNoUnderscores(d[1..]);
    }
  }

  function Unsigned(d: Bytes): Option<int>
  {
    if WellFormedDigits(d) then Some(DigitsValue(DropUnderscores(d))) else None
  }

  /** Python's `int(s)` on the ASCII text `s`; `None` stands for `ValueError`. */
  function ParseInt(s: Bytes): Option<int>
  {
    Signed(StripRight(StripLeft(s)))
  }

  /** The number written by stripped text: an optional sign, then digits with single underscores. */
  function Signed(t: Bytes): Option<int>
  {
    if |t| == 0 then None
    else if t[0] == 45 then
      (match Unsigned(t[1..]) case Some(v) => Some(-v) case None => None)
    else if t[0] == 43 then Unsigned(t[1..])
    else Unsigned(t)
  }

  /** A plain string of digits is read as its value. */
  lemma UnsignedOfDigits(d: Bytes)
    requires d != [] && forall i :: 0 <= i < |d| ==> IsDigit(d[i])
    ensures Unsigned(d) == Some(DigitsValue(d))
  {
    DropNoUnderscores(d);
    assert WellFormedDigits(d);
  }

  lemma UnsignedDigits(m: nat)
    ensures Unsigned(Digits(m)) == Some(m)
  {
    DigitsValueOfDigits(m);
    DigitsAreDigits(m);
    UnsignedOfDigits(Digits(m));
  }

  lemma ParseIntPlain(s: Bytes)
    requires s != [] && StripRight(StripLeft(s)) == s && IsDigit(s[0])
    ensures ParseInt(s) == Unsigned(s)
  {
  }

  lemma ParseIntMinus(s: Bytes)
    requires s != [] && StripRight(StripLeft(s)) == s && s[0] == 45
    ensures ParseInt(s) == match Unsigned(s[1..]) case Some(v) => Some(-v) case None => None
  {
  }

  /** A plain string of digits is read by `int()` as its value. */
  lemma ParseDigitsText(d: Bytes)
    requires d != [] && forall i :: 0 <= i < |d| ==> IsDigit(d[i])
    ensures ParseInt(d) == Some(DigitsValue(d))
  {
    StripsNothing(d);
    ParseIntPlain(d);
    UnsignedOfDigits(d);
  }

  /** `int(str(n))` gives `n` back. */
  lemma ParseDecimal(n: int)
    ensures ParseInt(Decimal(n)) == Some(n)
  {
    if n < 0 {
      var d := Digits(-n);
      var s := [45] + d;
      assert Decimal(n) == s;
      DigitsAreDigits(-n);
      StripsNothing(s);
      ParseIntMinus(s);
      assert s[1..] == d;
      UnsignedDigits(-n);
    } else {
      DecimalDigits(n);
      DigitsAreDigits(n);
      ParseDigitsText(Digits(n));
      DigitsValueOfDigits(n);
    }
  }

  /** Text that neither starts nor ends with a space is left alone by `strip()`. */
  lemma StripsNothing(s: Bytes)
    requires s != [] && !IsSpace(s[0]) && !IsSpace(s[|s| - 1])
    ensures StripRight(StripLeft(s)) == s
  {
  }

  /** A single byte parses as an int exactly when it is a decimal digit. */
  lemma ParseOneByte(b: byte)
    ensures ParseInt([b]).Some? <==> IsDigit(b)
    ensures IsDigit(b) ==> ParseInt([b]) == Some(b - 48)
  {
    if IsDigit(b) {
      ParseDigitsText([b]);
      assert [b][..0] == [];
      assert DigitsValue([b]) == DigitsValue([b][..0]) * 10 + (b - 48);
    } else {
      ParseOneNonDigit(b);
    }
  }

  lemma ParseOneNonDigit(b: byte)
    requires !IsDigit(b)
    ensures ParseInt([b]) == None
  {
    if IsSpace(b) {
      assert StripLeft([b]) == StripLeft([b][1..]);
      assert StripLeft([b]) == [];
    } else {
      StripsNothing([b]);
      assert !WellFormedDigits([b]);
      assert !WellFormedDigits([b][1..]);
    }
  }

  /* ---------------------------------------------------------------------- */
  /* UTF-8                                                                    */

  predicate IsCont(b: byte) { 0x80 <= b <= 0xBF }

  /** How many bytes the character starting with `b0` occupies; 0 for a byte no character starts with. */
  function Width(b0: byte): nat
  {
    if b0 < 0x80 then 1
    else if 0xC2 <= b0 <= 0xDF then 2
    else if 0xE0 <= b0 <= 0xEF then 3
    else if 0xF0 <= b0 <= 0xF4 then 4
    else 0
  }

  /** One well-formed character: no overlong forms, no surrogates, at most U+10FFFF. */
  predicate ValidChar(c: Bytes)
  {
    && |c| >= 1 && |c| == Width(c[0])
    && (|c| >= 2 ==>
         if c[0] == 0xE0 then 0xA0 <= c[1] <= 0xBF
         else if c[0] == 0xED then 0x80 <= c[1] <= 0x9F
         else if c[0] == 0xF0 then 0x90 <= c[1] <= 0xBF
         else if c[0] == 0xF4 then 0x80 <= c[1] <= 0x8F
         else IsCont(c[1]))
    && (forall j :: 2 <= j < |c| ==> IsCont(c[j]))
  }

  /** Strict UTF-8, as Python's `bytes.decode()` accepts it. */
  predicate IsUtf8(s: Bytes)
    decreases |s|
  {
    s == [] || (var k := Width(s[0]); k > 0 && |s| >= k && ValidChar(s[..k]) && IsUtf8(s[k..]))
  }

  predicate IsAscii(s: Bytes) { forall i :: 0 <= i < |s| ==> s[i] < 0x80 }

  lemma {:induction false} AsciiIsUtf8(s: Bytes)
    requires IsAscii(s)
    ensures IsUtf8(s)
    decreases |s|
  {
    if s != [] { AsciiIsUtf8(s[1..]); }
  }

  /** Valid UTF-8 stays valid when valid UTF-8 is appended. */
  lemma {:induction false} Utf8Append(a: Bytes, b: Bytes)
    requires IsUtf8(a) && IsUtf8(b)
    ensures IsUtf8(a + b)
    decreases |a|
  {
    if a != [] {
      var k := Width(a[0]);
      var ab := a + b;
      assert ab[0] == a[0] && ab[..k] == a[..k] && ab[k..] == a[k..] + b;
      Utf8Append(a[k..], b);
    } else {
      assert a + b == b;
    }
  }

  /** Items each followed by a comma, as a listing or a token list is written. */
  function Text(toks: seq<Bytes>): Bytes
  {
    if toks == [] then [] else toks[0] + [COMMA] + Text(toks[1..])
  }

  lemma {:induction false} TextAppend(a: seq<Bytes>, b: seq<Bytes>)
    ensures Text(a + b) == Text(a) + Text(b)
    decreases |a|
  {
    if a == [] {
      assert a + b == b;
    } else {
      assert (a + b)[1..] == a[1..] + b;
      TextAppend(a[1..], b);
      Regroup(a[0] + [COMMA], Text(a[1..]), Text(b));
    }
  }

  /** Concatenation regrouped; stated once so that callers need not prove it on large terms. */
  lemma Regroup<T>(a: seq<T>, b: seq<T>, c: seq<T>)
    ensures (a + b) + c == a + (b + c)
  {
  }
}
