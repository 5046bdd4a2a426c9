/**
 * The parts of java.lang.String the core depends on: UTF-16 code units,
 * String.hashCode, String.compareTo, indexOf, split with a one-character
 * separator, and the "%08x" rendering of an int.
 */
module JavaText {

  /** 2^32: Java int arithmetic is modelled modulo this, as unsigned bit patterns. */
  const TWO32: int := 0x1_0000_0000

  /** The UTF-16 code units of one character (a surrogate pair above U+FFFF). */
  function CharUnits(c: char): (u: seq<int>)
    ensures 1 <= |u| <= 2
    ensures (|u| == 1) == (c as int < 0x10000)
    ensures |u| == 1 ==> u[0] == c as int
    ensures |u| == 2 ==> 0xD800 <= u[0] < 0xDC00 && 0xDC00 <= u[1] < 0xE000
  {
    var v := c as int;
    if v < 0x10000 then [v]
    else [0xD800 + (v - 0x10000) / 0x400, 0xDC00 + (v - 0x10000) % 0x400]
  }

  /** The UTF-16 code units of a string: what Java's String stores. */
  function Utf16(s: string): seq<int>
  {
    if s == [] then [] else CharUnits(s[0]) + Utf16(s[1..])
  }

  /** Distinct strings have distinct UTF-16 encodings. */
  lemma {:induction false} Utf16Injective(a: string, b: string)
    requires Utf16(a) == Utf16(b)
    ensures a == b
  {
    if a == [] || b == [] {
      if a != b { assert false; }
    } else {
      var ua, ub := CharUnits(a[0]), CharUnits(b[0]);
      assert Utf16(a) == ua + Utf16(a[1..]);
      assert Utf16(b) == ub + Utf16(b[1..]);
      assert ua[0] == Utf16(a)[0] && ub[0] == Utf16(b)[0];
      if |ua| == 1 && |ub| == 1 {
        assert a[0] as int == b[0] as int;
      } else if |ua| == 2 && |ub| == 2 {
        assert ua[1] == Utf16(a)[1] && ub[1] == Utf16(b)[1];
        assert a[0] as int == b[0] as int;
      } else {
        assert false;
      }
      assert a[0] == b[0];
      assert ua == ub;
      assert Utf16(a[1..]) == Utf16(a)[|ua|..] == Utf16(b)[|ub|..] == Utf16(b[1..]);
      Utf16Injective(a[1..], b[1..]);
      assert a == [a[0]] + a[1..] && b == [b[0]] + b[1..];
    }
  }

  /** Java's int hash of a code-unit sequence: h = 31 * h + unit in 32-bit arithmetic. */
  function HashUnits(u: seq<int>): (h: int)
    ensures 0 <= h < TWO32
  {
    if u == [] then 0 else (31 * HashUnits(u[..|u| - 1]) + u[|u| - 1]) % TWO32
  }

  /** String.hashCode(), as the unsigned pattern of its 32 bits. */
  function StringHash(s: string): (h: int)
    ensures 0 <= h < TWO32
  {
    HashUnits(Utf16(s))
  }

  /** Lexicographic order on code-unit sequences, the order of String.compareTo. */
  predicate UnitsLess(a: seq<int>, b: seq<int>)
  {
    if a == [] then b != []
    else if b == [] then false
    else a[0] < b[0] || (a[0] == b[0] && UnitsLess(a[1..], b[1..]))
  }

  lemma {:induction false} UnitsLessIrreflexive(a: seq<int>)
    ensures !UnitsLess(a, a)
  {
    if a != [] { UnitsLessIrreflexive(a[1..]); }
  }

  lemma {:induction false} UnitsLessTransitive(a: seq<int>, b: seq<int>, c: seq<int>)
    requires UnitsLess(a, b) && UnitsLess(b, c)
    ensures UnitsLess(a, c)
  {
    if a != [] && b != [] && c != [] && a[0] == b[0] == c[0] {
      UnitsLessTransitive(a[1..], b[1..], c[1..]);
    }
  }

  lemma {:induction false} UnitsLessTotal(a: seq<int>, b: seq<int>)
    ensures a == b || UnitsLess(a, b) || UnitsLess(b, a)
  {
    if a != [] && b != [] && a[0] == b[0] {
      UnitsLessTotal(a[1..], b[1..]);
      if a[1..] == b[1..] {
        assert a == [a[0]] + a[1..] && b == [b[0]] + b[1..];
      }
    }
  }

  /** a.compareTo(b) < 0 */
  predicate StrLess(a: string, b: string)
  {
    UnitsLess(Utf16(a), Utf16(b))
  }

  /** String.compareTo is a strict total order, and reports 0 exactly for equal strings. */
  lemma StrLessIsStrictTotalOrder()
    ensures forall a :: !StrLess(a, a)
    ensures forall a, b, c :: StrLess(a, b) && StrLess(b, c) ==> StrLess(a, c)
    ensures forall a, b :: a == b || StrLess(a, b) || StrLess(b, a)
  {
    forall a ensures !StrLess(a, a) { UnitsLessIrreflexive(Utf16(a)); }
    forall a, b, c | StrLess(a, b) && StrLess(b, c) ensures StrLess(a, c) {
      UnitsLessTransitive(Utf16(a), Utf16(b), Utf16(c));
    }
    forall a, b ensures a == b || StrLess(a, b) || StrLess(b, a) {
      UnitsLessTotal(Utf16(a), Utf16(b));
      if Utf16(a) == Utf16(b) { Utf16Injective(a, b); }
    }
  }

  /** The sign of a.compareTo(b). */
  function StrCompare(a: string, b: string): (r: int)
    ensures r == 0 <==> a == b
    ensures r < 0 <==> StrLess(a, b)
    ensures r > 0 <==> StrLess(b, a)
  {
    StrLessIsStrictTotalOrder();
    if StrLess(a, b) then -1 else if a == b then 0 else 1
  }

  /** s.indexOf(c): the first position of c, or -1. */
  function IndexOf(s: string, c: char): (i: int)
    ensures -1 <= i < |s|
    ensures i == -1 <==> c !in s
    ensures 0 <= i ==> s[i] == c && c !in s[..i]
  {
    if s == [] then -1
    else if s[0] == c then 0
    else
      var j := IndexOf(s[1..], c);
      if j == -1 then -1
      else
        assert s[..j + 1] == [s[0]] + s[1..][..j];
        j + 1
  }

  lemma {:induction false} IndexOfAfterPrefix(a: string, b: string, c: char)
    requires c !in a && c in b
    ensures IndexOf(a + b, c) == |a| + IndexOf(b, c)
  {
    if a != [] {
      assert (a + b)[0] == a[0];
      assert (a + b)[1..] == a[1..] + b;
      IndexOfAfterPrefix(a[1..], b, c);
      var j := IndexOf(a[1..] + b, c);
      assert j == |a| - 1 + IndexOf(b, c);
      assert IndexOf(a + b, c) == j + 1;
    } else {
      assert a + b == b;
    }
  }

  /** The pieces of s between occurrences of c, empty pieces included. */
  function RawSplit(s: string, c: char): (parts: seq<string>)
    ensures |parts| >= 1
    ensures forall i :: 0 <= i < |parts| ==> c !in parts[i]
    decreases |s|
  {
    var i := IndexOf(s, c);
    if i < 0 then [s]
    else
      var rest := RawSplit(s[i + 1..], c);
      assert forall j :: 1 <= j < |rest| + 1 ==> ([s[..i]] + rest)[j] == rest[j - 1];
      [s[..i]] + rest
  }

  /** Removes the trailing empty strings, as split with limit 0 does. */
  function DropTrailingEmpty(parts: seq<string>): (r: seq<string>)
    ensures |r| <= |parts| && r == parts[..|r|]
    ensures r != [] ==> r[|r| - 1] != ""
    ensures forall i :: |r| <= i < |parts| ==> parts[i] == ""
  {
    if parts == [] || parts[|parts| - 1] != "" then parts
    else DropTrailingEmpty(parts[..|parts| - 1])
  }

  /**
   * s.split(c) for a separator that is not a regular-expression metacharacter:
   * without an occurrence of c the result is [s] (even for ""); otherwise the
   * pieces between separators with trailing empty pieces removed.
   */
  function Split(s: string, c: char): (parts: seq<string>)
    ensures forall i :: 0 <= i < |parts| ==> c !in parts[i]
    ensures c !in s ==> parts == [s]
    ensures c in s ==> parts == DropTrailingEmpty(RawSplit(s, c))
  {
    if c !in s then [s] else DropTrailingEmpty(RawSplit(s, c))
  }

  /** Rejoining the raw pieces with the separator gives the string back. */
  function Join(parts: seq<string>, c: char): string
  {
    if parts == [] then "" else if |parts| == 1 then parts[0] else parts[0] + [c] + Join(parts[1..], c)
  }

  lemma {:induction false} RawSplitJoin(s: string, c: char)
    ensures Join(RawSplit(s, c), c) == s
    decreases |s|
  {
    var i := IndexOf(s, c);
    if i >= 0 {
      RawSplitJoin(s[i + 1..], c);
      var rest := RawSplit(s[i + 1..], c);
      JoinCons(s[..i], rest, c);
      assert s == s[..i] + [c] + s[i + 1..];
    }
  }

  lemma JoinCons(x: string, rest: seq<string>, c: char)
    requires rest != []
    ensures Join([x] + rest, c) == x + [c] + Join(rest, c)
  {
    var parts := [x] + rest;
    assert parts[0] == x && parts[1..] == rest;
  }

  /** Splitting a separator-free piece followed by c and the rest. */
  lemma RawSplitCons(a: string, b: string, c: char)
    requires c !in a
    ensures RawSplit(a + [c] + b, c) == [a] + RawSplit(b, c)
  {
    var s := a + [c] + b;
    assert c in [c] + b;
    assert s == a + ([c] + b);
    IndexOfAfterPrefix(a, [c] + b, c);
    assert IndexOf(s, c) == |a|;
    assert s[..|a|] == a && s[|a| + 1..] == b;
  }

  /** What follows the last c of a string is determined by the string. */
  lemma SameTailAfterLast(p1: string, v1: string, p2: string, v2: string, c: char)
    requires c !in v1 && c !in v2
    requires p1 + [c] + v1 == p2 + [c] + v2
    ensures v1 == v2
  {
    var s := p1 + [c] + v1;
    assert s[|s| - |v1| - 1] == c && s[|s| - |v1|..] == v1;
    assert s[|s| - |v2| - 1] == c && s[|s| - |v2|..] == v2;
    if |v1| != |v2| {
      assert false;
    }
    assert v1 == s[|s| - |v1|..] == v2;
  }

  /** Splitting two separator-free pieces, the last non-empty, recovers them. */
  lemma SplitTwo(x: string, y: string, c: char)
    requires c !in x && c !in y && y != ""
    ensures Split(x + [c] + y, c) == [x, y]
  {
    var s := x + [c] + y;
    assert s[|x|] == c;
    RawSplitCons(x, y, c);
    assert RawSplit(y, c) == [y];
  }

  /** Splitting three separator-free pieces, the last non-empty, recovers them. */
  lemma SplitThree(x: string, y: string, z: string, c: char)
    requires c !in x && c !in y && c !in z && z != ""
    ensures Split(x + [c] + y + [c] + z, c) == [x, y, z]
  {
    var s := x + [c] + y + [c] + z;
    assert s == x + [c] + (y + [c] + z);
    assert s[|x|] == c;
    RawSplitCons(x, y + [c] + z, c);
    RawSplitCons(y, z, c);
    assert RawSplit(z, c) == [z];
    assert RawSplit(s, c) == [x, y, z];
  }

  const HexDigits: string := "0123456789abcdef"

  /** The lower-case hexadecimal digit for 0 <= d < 16. */
  function HexDigit(d: int): (c: char)
    requires 0 <= d < 16
    ensures c in HexDigits
  {
    if d < 10 then ('0' as int + d) as char else ('a' as int + d - 10) as char
  }

  /** The low `width` hexadecimal digits of n, most significant first, zero-padded. */
  function HexDigitsOf(n: nat, width: nat): (r: string)
    ensures |r| == width
    ensures forall i :: 0 <= i < width ==> r[i] in HexDigits
  {
    if width == 0 then "" else HexDigitsOf(n / 16, width - 1) + [HexDigit(n % 16)]
  }

  /** The value of a string of lower-case hexadecimal digits. */
  function HexValue(s: string): nat
  {
    if s == [] then 0 else 16 * HexValue(s[..|s| - 1]) + DigitValue(s[|s| - 1])
  }

  function DigitValue(c: char): nat
  {
    if '0' <= c <= '9' then c as nat - '0' as nat
    else if 'a' <= c <= 'f' then c as nat - 'a' as nat + 10
    else 0
  }

  function Pow16(k: nat): nat
  {
    if k == 0 then 1 else 16 * Pow16(k - 1)
  }

  lemma {:induction false} HexDigitsOfValue(n: nat, width: nat)
    requires n < Pow16(width)
    ensures HexValue(HexDigitsOf(n, width)) == n
  {
    if width > 0 {
      var q, d := n / 16, n % 16;
      assert n == 16 * q + d;
      assert q < Pow16(width - 1);
      HexDigitsOfValue(q, width - 1);
      var r := HexDigitsOf(n, width);
      var front := HexDigitsOf(q, width - 1);
      assert r == front + [HexDigit(d)];
      assert r[..|r| - 1] == front;
      assert DigitValue(HexDigit(d)) == d;
      assert HexValue(r) == 16 * HexValue(front) + d;
    } else {
      assert n == 0;
    }
  }

  /**
   * String.format("%08x", i) for an int i, given as its unsigned 32-bit pattern:
   * Java prints a negative int in two's complement, so the pattern is what is printed.
   */
  function Hex8(n: int): (r: string)
    requires 0 <= n < TWO32
    ensures |r| == 8
    ensures forall i :: 0 <= i < 8 ==> r[i] in HexDigits
    ensures HexValue(r) == n
  {
    assert Pow16(8) == TWO32;
    HexDigitsOfValue(n, 8);
    HexDigitsOf(n, 8)
  }

  /** Integer.toString(n) for a non-negative n. */
  function DecimalString(n: nat): (r: string)
    ensures r != []
    ensures forall i :: 0 <= i < |r| ==> '0' <= r[i] <= '9'
  {
    if n < 10 then ["0123456789"[n]] else DecimalString(n / 10) + ["0123456789"[n % 10]]
  }
}
