/**
 * The parts of the Java platform the store's code leans on, written out so that
 * their edge cases are visible: signed bytes, 32-bit `int` arithmetic with
 * wrap-around, truncating remainder, `Math.abs`, and the `String` methods
 * `trim`, `startsWith`, `endsWith`, `indexOf`, `lastIndexOf`, `toLowerCase`,
 * `equalsIgnoreCase` and `compareTo`; plus the exceptions the store throws.
 */
module JavaLang {

  /** A Java `byte`: signed, -128..127. */
  type Byte = b: int | -128 <= b < 128

  /** A Java `int`. */
  type Int32 = x: int | -0x8000_0000 <= x < 0x8000_0000

  const IntMinValue: Int32 := -0x8000_0000

  /** Two's-complement wrap-around of a mathematical integer into a Java `int`. */
  function Wrap32(x: int): (r: Int32)
    ensures -0x8000_0000 <= x < 0x8000_0000 ==> r == x
  {
    (x + 0x8000_0000) % 0x1_0000_0000 - 0x8000_0000
  }

  /** `Math.abs(int)`: negating `Integer.MIN_VALUE` wraps back to itself. */
  function Abs32(x: Int32): (r: Int32)
    ensures r < 0 <==> x == IntMinValue
    ensures x != IntMinValue ==> r == if x < 0 then -x else x
  {
    if x < 0 then Wrap32(-(x as int)) else x
  }

  /** Java's `%` on integers: the remainder takes the sign of the dividend. */
  function Rem(a: int, m: int): (r: int)
    requires m > 0
    ensures a >= 0 ==> 0 <= r < m
    ensures a < 0 ==> -m < r <= 0
  {
    if a >= 0 then a % m else -((-a) % m)
  }

  /** `b & 0xFF`: the unsigned value of a byte. */
  function Unsigned(b: Byte): (u: int)
    ensures 0 <= u < 256
  {
    if b < 0 then b + 256 else b
  }

  /** `(byte) u` for 0 <= u < 256. */
  function ToByte(u: int): (b: Byte)
    requires 0 <= u < 256
    ensures Unsigned(b) == u
  {
    if u >= 128 then u - 256 else u
  }

  lemma {:induction false} MulAtLeast(n: int, k: int)
    requires n > 0 && k >= 1
    ensures n * k >= n
    decreases k
  {
    if k > 1 {
      MulAtLeast(n, k - 1);
      assert n * k == n * (k - 1) + n;
    }
  }

  /** Euclidean remainders are unique. */
  lemma ModUnique(x: int, n: int, q: int, r: int)
    requires n > 0 && 0 <= r < n && x == n * q + r
    ensures x % n == r
  {
    var q0, r0 := x / n, x % n;
    assert x == n * q0 + r0;
    var k := q - q0;
    assert n * k == r0 - r by {
      assert n * q - n * q0 == n * (q - q0);
    }
    if k >= 1 {
      MulAtLeast(n, k);
    } else if k <= -1 {
      MulAtLeast(n, -k);
    }
  }

  lemma ModSmall(x: int, n: int)
    requires 0 <= x < n
    ensures x % n == x
  {
    ModUnique(x, n, 0, x);
  }

  lemma ModSelf(n: int)
    requires n > 0
    ensures n % n == 0
  {
    ModUnique(n, n, 1, 0);
  }

  /** The remainder of a counter modulo n advances cyclically. */
  lemma ModSucc(i: nat, n: nat)
    requires n > 0
    ensures (i + 1) % n == if i % n == n - 1 then 0 else i % n + 1
  {
    var q := i / n;
    assert i == n * q + i % n;
    if i % n == n - 1 {
      assert i + 1 == n * (q + 1) + 0;
      ModUnique(i + 1, n, q + 1, 0);
    } else {
      assert i + 1 == n * q + (i % n + 1);
      ModUnique(i + 1, n, q, i % n + 1);
    }
  }

  /* ---------------------------------------------------------------- */
  /* java.lang.String                                                  */
  /* ---------------------------------------------------------------- */

  /** The characters `String.trim` strips: every code up to U+0020. */
  predicate IsTrimmed(c: char) { c <= ' ' }

  function TrimStart(s: string): string
  {
    if s != [] && IsTrimmed(s[0]) then TrimStart(s[1..]) else s
  }

  function TrimEnd(s: string): string
  {
    if s != [] && IsTrimmed(s[|s| - 1]) then TrimEnd(s[..|s| - 1]) else s
  }

  /** `String.trim`. */
  function Trim(s: string): string
  {
    TrimEnd(TrimStart(s))
  }

  lemma {:induction false} TrimStartEmpty(s: string)
    ensures TrimStart(s) == [] <==> forall i :: 0 <= i < |s| ==> IsTrimmed(s[i])
  {
    if s != [] && IsTrimmed(s[0]) {
      TrimStartEmpty(s[1..]);
      assert forall i :: 1 <= i < |s| ==> s[i] == s[1..][i - 1];
    }
  }

  lemma {:induction false} TrimStartHead(s: string)
    ensures TrimStart(s) != [] ==> !IsTrimmed(TrimStart(s)[0])
  {
    if s != [] && IsTrimmed(s[0]) {
      TrimStartHead(s[1..]);
    }
  }

  lemma {:induction false} TrimEndKeepsHead(t: string)
    requires t != [] && !IsTrimmed(t[0])
    ensures TrimEnd(t) != []
  {
    if IsTrimmed(t[|t| - 1]) {
      TrimEndKeepsHead(t[..|t| - 1]);
    }
  }

  lemma {:induction false} TrimEndPrefix(t: string)
    ensures TrimEnd(t) <= t
  {
    if t != [] && IsTrimmed(t[|t| - 1]) {
      TrimEndPrefix(t[..|t| - 1]);
    }
  }

  /** A string that does not trim to "" trims to one that starts with a character above U+0020. */
  lemma TrimHead(s: string)
    ensures Trim(s) != [] ==> !IsTrimmed(Trim(s)[0])
  {
    TrimStartHead(s);
    TrimEndPrefix(TrimStart(s));
  }

  /** A string trims to "" exactly when every character is at most U+0020. */
  lemma {:induction false} TrimEmptyIff(s: string)
    ensures Trim(s) == [] <==> forall i :: 0 <= i < |s| ==> IsTrimmed(s[i])
  {
    TrimStartEmpty(s);
    TrimStartHead(s);
    if TrimStart(s) != [] {
      TrimEndKeepsHead(TrimStart(s));
    }
  }

  /** `s.startsWith(prefix)`. */
  predicate StartsWith(s: string, prefix: string)
  {
    |prefix| <= |s| && s[..|prefix|] == prefix
  }

  /** `s.endsWith(suffix)`. */
  predicate EndsWith(s: string, suffix: string)
  {
    |suffix| <= |s| && s[|s| - |suffix|..] == suffix
  }

  /** `s.indexOf(c, from)` for 0 <= from: the first index at or after `from` holding `c`, or -1. */
  function IndexOf(s: string, c: char, from: nat): (r: int)
    decreases |s| - from
    ensures r == -1 || (from <= r < |s| && s[r] == c)
    ensures r == -1 ==> forall k :: from <= k < |s| ==> s[k] != c
    ensures r != -1 ==> forall k :: from <= k < r ==> s[k] != c
  {
    if from >= |s| then -1
    else if s[from] == c then from
    else IndexOf(s, c, from + 1)
  }

  /** Does `sub` occur in `s` at index k? */
  predicate OccursAt(s: string, sub: string, k: int)
  {
    0 <= k && k + |sub| <= |s| && s[k..k + |sub|] == sub
  }

  /** The largest k <= from at which `sub` occurs in `s`, or -1. */
  function LastIndexFrom(s: string, sub: string, from: int): (r: int)
    decreases from + 1
    ensures r == -1 || (0 <= r <= from && OccursAt(s, sub, r))
    ensures forall k :: r < k <= from ==> !OccursAt(s, sub, k)
  {
    if from < 0 then -1
    else if OccursAt(s, sub, from) then from
    else LastIndexFrom(s, sub, from - 1)
  }

  /** `s.lastIndexOf(sub)`: the last index at which `sub` occurs, or -1. */
  function LastIndexOf(s: string, sub: string): (r: int)
    ensures r == -1 || OccursAt(s, sub, r)
    ensures forall k :: r < k ==> !OccursAt(s, sub, k)
  {
    LastIndexFrom(s, sub, |s| - |sub|)
  }

  /** ASCII lower-casing of one character (`Character.toLowerCase` restricted to A-Z). */
  function LowerAscii(c: char): char
  {
    if 'A' <= c <= 'Z' then (c as int + 32) as char else c
  }

  /** `s.toLowerCase()`, for the ASCII letters only. */
  function ToLowerCase(s: string): (r: string)
    ensures |r| == |s|
    ensures forall i :: 0 <= i < |s| ==> r[i] == LowerAscii(s[i])
  {
    seq(|s|, i requires 0 <= i < |s| => LowerAscii(s[i]))
  }

  /** `a.equalsIgnoreCase(b)`, for the ASCII letters only. */
  predicate EqualsIgnoreCase(a: string, b: string)
  {
    |a| == |b| && forall i :: 0 <= i < |a| ==> LowerAscii(a[i]) == LowerAscii(b[i])
  }

  /** The UTF-16 units of one character: itself below U+10000, otherwise its surrogate pair. */
  function Utf16Units(c: char): (r: seq<int>)
    ensures 1 <= |r| <= 2
    ensures |r| == 1 <==> c as int < 0x1_0000
  {
    var x := c as int;
    if x < 0x1_0000 then [x] else [0xD800 + (x - 0x1_0000) / 1024, 0xDC00 + (x - 0x1_0000) % 1024]
  }

  /** A string as Java holds it: its UTF-16 units. */
  function Utf16(s: string): (r: seq<int>)
    ensures |s| <= |r|
  {
    if s == [] then [] else Utf16Units(s[0]) + Utf16(s[1..])
  }

  /** The unit sequence of a character followed by more units names that character and those units. */
  lemma Utf16UnitsPrefix(c: char, d: char, ra: seq<int>, rb: seq<int>)
    requires Utf16Units(c) + ra == Utf16Units(d) + rb
    ensures c == d && ra == rb
  {
    var uc, ud := Utf16Units(c), Utf16Units(d);
    assert uc[0] == (uc + ra)[0] == (ud + rb)[0] == ud[0];
    if |uc| == 2 && |ud| == 2 {
      assert uc[1] == (uc + ra)[1] == (ud + rb)[1] == ud[1];
      var x, y := c as int - 0x1_0000, d as int - 0x1_0000;
      assert x == 1024 * (x / 1024) + x % 1024;
      assert y == 1024 * (y / 1024) + y % 1024;
    }
    assert ra == (uc + ra)[|uc|..] == (ud + rb)[|ud|..] == rb;
  }

  /** Different strings have different UTF-16 units. */
  lemma {:induction false} Utf16Injective(a: string, b: string)
    requires Utf16(a) == Utf16(b)
    ensures a == b
  {
    if a != [] && b != [] {
      Utf16UnitsPrefix(a[0], b[0], Utf16(a[1..]), Utf16(b[1..]));
      Utf16Injective(a[1..], b[1..]);
      assert a == [a[0]] + a[1..] && b == [b[0]] + b[1..];
    }
  }

  /** Lexicographic comparison of unit sequences: the difference of the first differing units, else of the lengths. */
  function CompareUnits(a: seq<int>, b: seq<int>): int
  {
    if a == [] || b == [] then |a| - |b|
    else if a[0] != b[0] then a[0] - b[0]
    else CompareUnits(a[1..], b[1..])
  }

  /** `a.compareTo(b)`: the units of the two strings compared lexicographically. */
  function CompareTo(a: string, b: string): int
  {
    CompareUnits(Utf16(a), Utf16(b))
  }

  lemma {:induction false} CompareUnitsZero(a: seq<int>, b: seq<int>)
    ensures CompareUnits(a, b) == 0 <==> a == b
  {
    if a != [] && b != [] && a[0] == b[0] {
      CompareUnitsZero(a[1..], b[1..]);
      assert a == [a[0]] + a[1..] && b == [b[0]] + b[1..];
    }
  }

  /** `compareTo` is zero exactly on equal strings. */
  lemma CompareToZero(a: string, b: string)
    ensures CompareTo(a, b) == 0 <==> a == b
  {
    CompareUnitsZero(Utf16(a), Utf16(b));
    if Utf16(a) == Utf16(b) {
      Utf16Injective(a, b);
    }
  }

  lemma {:induction false} CompareUnitsAntisymmetric(a: seq<int>, b: seq<int>)
    ensures CompareUnits(b, a) == -CompareUnits(a, b)
  {
    if a != [] && b != [] && a[0] == b[0] {
      CompareUnitsAntisymmetric(a[1..], b[1..]);
    }
  }

  /** Swapping the arguments of `compareTo` negates the result. */
  lemma CompareToAntisymmetric(a: string, b: string)
    ensures CompareTo(b, a) == -CompareTo(a, b)
  {
    CompareUnitsAntisymmetric(Utf16(a), Utf16(b));
  }

  lemma {:induction false} CompareUnitsTransitive(a: seq<int>, b: seq<int>, c: seq<int>)
    requires CompareUnits(a, b) <= 0 && CompareUnits(b, c) <= 0
    ensures CompareUnits(a, c) <= 0
  {
    if a != [] && b != [] && c != [] && a[0] == b[0] && b[0] == c[0] {
      CompareUnitsTransitive(a[1..], b[1..], c[1..]);
    }
  }

  /** `compareTo(a, b) <= 0` is transitive. */
  lemma CompareToTransitive(a: string, b: string, c: string)
    requires CompareTo(a, b) <= 0 && CompareTo(b, c) <= 0
    ensures CompareTo(a, c) <= 0
  {
    CompareUnitsTransitive(Utf16(a), Utf16(b), Utf16(c));
  }

  /**
   * Units, not code points, decide: a supplementary character, whose first
   * unit is a high surrogate, sorts before a character from U+E000 on.
   */
  lemma CompareToByUnits(hi: char, lo: char)
    requires hi as int >= 0x1_0000 && 0xE000 <= lo as int < 0x1_0000
    ensures CompareTo([hi], [lo]) < 0 && lo as int < hi as int
  {
    assert Utf16([hi]) == Utf16Units(hi) && Utf16([lo]) == Utf16Units(lo);
  }

  /** The UTF-8 bytes of one character (a Unicode scalar value), as Java encodes it. */
  function Utf8Char(c: char): (r: seq<Byte>)
    ensures 1 <= |r| <= 4
    ensures c as int < 0x80 <==> |r| == 1
    ensures c as int < 0x80 ==> r == [c as int]
  {
    var v := c as int;
    if v < 0x80 then [v]
    else if v < 0x800 then [ToByte(0xC0 + v / 64), ToByte(0x80 + v % 64)]
    else if v < 0x1_0000 then [ToByte(0xE0 + v / 4096), ToByte(0x80 + (v / 64) % 64), ToByte(0x80 + v % 64)]
    else [ToByte(0xF0 + v / 262144), ToByte(0x80 + (v / 4096) % 64), ToByte(0x80 + (v / 64) % 64), ToByte(0x80 + v % 64)]
  }

  /** `s.getBytes("UTF-8")`. */
  function Utf8(s: string): seq<Byte>
  {
    if s == [] then [] else Utf8Char(s[0]) + Utf8(s[1..])
  }

  /** UTF-8 never produces fewer bytes than characters, and an ASCII string encodes to its codes. */
  lemma {:induction false} Utf8Length(s: string)
    ensures |s| <= |Utf8(s)| <= 4 * |s|
    ensures (forall i :: 0 <= i < |s| ==> s[i] as int < 0x80) ==> Utf8(s) == seq(|s|, i requires 0 <= i < |s| => s[i] as int)
  {
    Utf8Bounds(s);
    if forall i :: 0 <= i < |s| ==> s[i] as int < 0x80 {
      Utf8Ascii(s);
    }
  }

  lemma {:induction false} Utf8Bounds(s: string)
    ensures |s| <= |Utf8(s)| <= 4 * |s|
  {
    if s != [] {
      Utf8Bounds(s[1..]);
    }
  }

  lemma {:induction false} Utf8Ascii(s: string)
    requires forall i :: 0 <= i < |s| ==> s[i] as int < 0x80
    ensures Utf8(s) == seq(|s|, i requires 0 <= i < |s| => s[i] as int)
  {
    if s != [] {
      var t := s[1..];
      forall i | 0 <= i < |t|
        ensures t[i] as int < 0x80
      {
        assert t[i] == s[i + 1];
      }
      Utf8Ascii(t);
      var r := Utf8(s);
      assert r == [s[0] as int] + Utf8(t);
      forall i | 0 <= i < |s|
        ensures r[i] == s[i] as int
      {
        if i > 0 {
          assert r[i] == Utf8(t)[i - 1] && t[i - 1] == s[i];
        }
      }
    }
  }

  /* ---------------------------------------------------------------- */
  /* Exceptions                                                        */
  /* ---------------------------------------------------------------- */

  /** The exceptions the store's code throws, by class (and message where the code fixes one). */
  datatype Exc =
    | IllegalArgument(message: string)        // IllegalArgumentException
    | IllegalState(message: string)           // IllegalStateException
    | NullPointer(message: string)            // NullPointerException
    | ArrayIndexOutOfBounds(index: int)       // ArrayIndexOutOfBoundsException
    | StringIndexOutOfBounds(index: int)      // StringIndexOutOfBoundsException
    | JsonSyntax                              // the codec's decoding failure (a RuntimeException)
    | ClassNotFound(name: string)             // ClassNotFoundException (checked)
    | IO(message: string)                     // IOException with a message
    | EOF                                     // EOFException
    | UTFDataFormat                           // UTFDataFormatException
    | Checked(what: string)                   // any other checked exception, thrown by a callback
    | IOWrapping(cause: Exc)                  // new IOException(cause)
    | RuntimeWrapping(cause: Exc)             // new RuntimeException(cause)
  {
    /** Is this an unchecked (RuntimeException) exception? */
    predicate IsRuntime()
    {
      IllegalArgument? || IllegalState? || NullPointer? || ArrayIndexOutOfBounds?
      || StringIndexOutOfBounds? || JsonSyntax? || RuntimeWrapping?
    }

    /** Is this an IOException (or a subclass of it)? */
    predicate IsIO()
    {
      IO? || EOF? || UTFDataFormat? || IOWrapping?
    }
  }

  /** `Utils.toRuntimeException`: unchecked exceptions pass through, checked ones are wrapped. */
  function ToRuntime(e: Exc): (r: Exc)
    ensures r.IsRuntime()
    ensures e.IsRuntime() ==> r == e
  {
    if e.IsRuntime() then e else RuntimeWrapping(e)
  }
}
