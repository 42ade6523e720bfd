/**
 * `Utils.getHash`: the shard code that spreads records over bucket directories.
 *
 * The loop runs max(n, L) times over a buffer of L characters (n value bytes,
 * L the requested width). Iteration i writes slot i mod L with an alphabet
 * character chosen from value byte i mod n, the iteration number, and the
 * character code currently in the cyclically previous slot. The arithmetic is
 * Java's 32-bit `int`: it wraps, bytes are signed, and `Math.abs` of
 * `Integer.MIN_VALUE` stays negative, which makes the alphabet index negative
 * and the array access throw.
 *
 * The loop is written once, over the way an iteration picks its alphabet index
 * (an `Indexer`): `AsWritten` is the source's expression and `Corrected` the
 * one that always lands in the alphabet. `Hash` specifies the method as written;
 * `HashFixed` is the corrected shard code the rest of the model uses.
 */
module ShardHash {
  import opened Wrappers
  import opened JavaLang

  /** The mixed value of iteration i before `Math.abs`: byte * (i+1) * 13 * (1 + i + previous char), in `int`. */
  function Mix(b: Byte, i: nat, prev: int): Int32
  {
    Wrap32(Wrap32(Wrap32(b * (i + 1)) * 13) * Wrap32(1 + i + prev))
  }

  /** The alphabet index the source computes: negative only when the mix is `Integer.MIN_VALUE`. */
  function SlotIndex(b: Byte, i: nat, prev: int, alphabetSize: nat): (r: int)
    requires alphabetSize > 0
    ensures -(alphabetSize as int) < r < alphabetSize
    ensures r < 0 ==> Mix(b, i, prev) == IntMinValue
  {
    Rem(Abs32(Mix(b, i, prev)), alphabetSize)
  }

  /** The corrected index: the absolute value of the remainder, always inside the alphabet. */
  function SlotIndexFixed(b: Byte, i: nat, prev: int, alphabetSize: nat): (r: nat)
    requires alphabetSize > 0
    ensures r < alphabetSize
    ensures SlotIndex(b, i, prev, alphabetSize) >= 0 ==> r == SlotIndex(b, i, prev, alphabetSize)
  {
    var rem := Rem(Mix(b, i, prev), alphabetSize);
    if rem < 0 then -rem else rem
  }

  /** How an iteration picks its alphabet index from (value byte, iteration number, previous character code). */
  type Indexer = (Byte, nat, int) -> int

  function AsWritten(alphabetSize: nat): Indexer
    requires alphabetSize > 0
  {
    (b: Byte, i: nat, prev: int) => SlotIndex(b, i, prev, alphabetSize)
  }

  function Corrected(alphabetSize: nat): Indexer
    requires alphabetSize > 0
  {
    (b: Byte, i: nat, prev: int) => SlotIndexFixed(b, i, prev, alphabetSize)
  }

  /** The slot whose character feeds slot `slot`: the previous one, cyclically. */
  function PrevSlot(slot: nat, len: nat): nat
    requires slot < len
  {
    if slot == 0 then len - 1 else slot - 1
  }

  /** Iteration i on buffer `chars`: the written buffer, or the exception the alphabet access throws. */
  function Step(values: seq<Byte>, len: nat, alphabet: seq<char>, index: Indexer, i: nat, chars: seq<char>): (r: Result<seq<char>, Exc>)
    requires |values| > 0 && len > 0 && |chars| == len
    ensures r.Success? ==> |r.value| == len
    ensures r.Failure? ==> r.error.ArrayIndexOutOfBounds?
  {
    var slot := i % len;
    var idx := index(values[i % |values|], i, chars[PrevSlot(slot, len)] as int);
    if idx < 0 || idx >= |alphabet| then Failure(ArrayIndexOutOfBounds(idx))
    else Success(chars[slot := alphabet[idx]])
  }

  /** The buffer after k iterations of the loop, or the exception an iteration threw. */
  function Fill(values: seq<Byte>, len: nat, alphabet: seq<char>, index: Indexer, k: nat): (r: Result<seq<char>, Exc>)
    requires |values| > 0 && len > 0
    ensures r.Success? ==> |r.value| == len
    ensures r.Failure? ==> r.error.ArrayIndexOutOfBounds?
  {
    if k == 0 then Success(seq(len, _ => '\0'))
    else
      match Fill(values, len, alphabet, index, k - 1)
      case Failure(e) => Failure(e)
      case Success(chars) => Step(values, len, alphabet, index, k - 1, chars)
  }

  /** Is the request one `getHash` answers with "" without looping? */
  predicate Degenerate(values: Option<seq<Byte>>, len: int, alphabet: seq<char>)
  {
    len < 1 || |alphabet| == 0 || values.None? || |values.value| < 1
  }

  function Iterations(n: nat, len: nat): nat
  {
    if n > len then n else len
  }

  /** `getHash(byte[], int, char[])` as written: the value it returns or the exception it throws. */
  function Hash(values: Option<seq<Byte>>, len: int, alphabet: seq<char>): Result<string, Exc>
  {
    if Degenerate(values, len, alphabet) then Success([])
    else Fill(values.value, len, alphabet, AsWritten(|alphabet|), Iterations(|values.value|, len))
  }

  /* ---------------------------------------------------------------- */
  /* The loop, for any way of picking the index                        */
  /* ---------------------------------------------------------------- */

  /** Once an iteration has thrown, the loop is over: later counts report the same exception. */
  lemma {:induction false} FillFailureSticks(values: seq<Byte>, len: nat, alphabet: seq<char>, index: Indexer, k: nat, k': nat)
    requires |values| > 0 && len > 0
    requires k <= k' && Fill(values, len, alphabet, index, k).Failure?
    ensures Fill(values, len, alphabet, index, k') == Fill(values, len, alphabet, index, k)
    decreases k' - k
  {
    if k < k' {
      FillFailureSticks(values, len, alphabet, index, k, k' - 1);
    }
  }

  /** One more iteration applies one more `Step`. */
  lemma FillNext(values: seq<Byte>, len: nat, alphabet: seq<char>, index: Indexer, k: nat, chars: seq<char>)
    requires |values| > 0 && len > 0
    requires Fill(values, len, alphabet, index, k) == Success(chars)
    ensures Fill(values, len, alphabet, index, k + 1) == Step(values, len, alphabet, index, k, chars)
  {
  }

  /** After k successful iterations every slot below k holds an alphabet character. */
  lemma {:induction false} FillWritten(values: seq<Byte>, len: nat, alphabet: seq<char>, index: Indexer, k: nat)
    requires |values| > 0 && len > 0
    requires Fill(values, len, alphabet, index, k).Success?
    ensures forall j :: 0 <= j < len && j < k ==> Fill(values, len, alphabet, index, k).value[j] in alphabet
  {
    if k > 0 {
      FillWritten(values, len, alphabet, index, k - 1);
      var i := k - 1;
      if i < len {
        ModUnique(i, len, 0, i);
      }
    }
  }

  /** An index that always lands in the alphabet never throws. */
  lemma {:induction false} FillInRange(values: seq<Byte>, len: nat, alphabet: seq<char>, index: Indexer, k: nat)
    requires |values| > 0 && len > 0
    requires forall b, i, p :: 0 <= index(b, i, p) < |alphabet|
    ensures Fill(values, len, alphabet, index, k).Success?
  {
    if k > 0 {
      FillInRange(values, len, alphabet, index, k - 1);
    }
  }

  /** Two indexers that agree wherever the first lands in the alphabet fill identically while the first survives. */
  lemma {:induction false} FillAgrees(values: seq<Byte>, len: nat, alphabet: seq<char>, f: Indexer, g: Indexer, k: nat)
    requires |values| > 0 && len > 0
    requires forall b, i, p :: 0 <= f(b, i, p) < |alphabet| ==> g(b, i, p) == f(b, i, p)
    requires Fill(values, len, alphabet, f, k).Success?
    ensures Fill(values, len, alphabet, g, k) == Fill(values, len, alphabet, f, k)
  {
    if k > 0 {
      FillAgrees(values, len, alphabet, f, g, k - 1);
    }
  }

  /* ---------------------------------------------------------------- */
  /* The method                                                        */
  /* ---------------------------------------------------------------- */

  /** `index` is the source's index computation (stated so that the loop proofs can treat it as a black box). */
  ghost predicate IsSlotIndex(index: Indexer, alphabetSize: nat)
    requires alphabetSize > 0
  {
    forall b, i, p {:trigger SlotIndex(b, i, p, alphabetSize)} :: index(b, i, p) == SlotIndex(b, i, p, alphabetSize)
  }

  lemma AsWrittenIsSlotIndex(alphabetSize: nat)
    requires alphabetSize > 0
    ensures IsSlotIndex(AsWritten(alphabetSize), alphabetSize)
  {
  }

  /** The index computation of one pass of the loop, statement by statement in `int` arithmetic. */
  method AlphabetIndex(value: Byte, i: nat, prevChar: char, alphabetSize: nat) returns (idxAlphabet: int)
    requires alphabetSize > 0
    ensures idxAlphabet == SlotIndex(value, i, prevChar as int, alphabetSize)
  {
    var mixed := Wrap32(Wrap32(value * (i + 1)) * 13);
    mixed := Wrap32(mixed * Wrap32(1 + i + prevChar as int));
    idxAlphabet := Rem(Abs32(mixed), alphabetSize);
  }

  /**
   * One pass of the loop once `idxValues` has been brought back into range: pick
   * the slot and the alphabet character and write it, or throw on a negative index.
   */
  method WriteSlot(chars: array<char>, values: seq<Byte>, alphabet: seq<char>, i: nat, idxValues: nat, ghost index: Indexer)
      returns (thrown: Option<Exc>)
    requires chars.Length > 0 && |values| > 0 && |alphabet| > 0
    requires idxValues == i % |values| && IsSlotIndex(index, |alphabet|)
    modifies chars
    ensures match Step(values, chars.Length, alphabet, index, i, old(chars[..]))
            case Success(next) => thrown.None? && chars[..] == next
            case Failure(e) => thrown == Some(e)
  {
    var len := chars.Length;
    var idxHash := i % len;
    var prevChar := chars[if idxHash == 0 then len - 1 else idxHash - 1];
    var idxAlphabet := AlphabetIndex(values[idxValues], i, prevChar, |alphabet|);
    if idxAlphabet < 0 {
      return Some(ArrayIndexOutOfBounds(idxAlphabet));
    }
    chars[idxHash] := alphabet[idxAlphabet];
    return None;
  }

  /** The two statements that bring `idxValues` back to 0 once it has run off the end of the values. */
  method ResetValueIndex(idxValues: nat, n: nat) returns (r: nat)
    requires 0 < n && idxValues <= n
    ensures r == if idxValues == n then 0 else idxValues
  {
    if idxValues < n {
      ModSmall(idxValues, n);
    } else {
      ModSelf(n);
    }
    var idx: int := if idxValues % n == 0 then 0 else idxValues;
    idx := if idx == n then 0 else idx;
    r := idx;
  }

  /** `getHash(byte[], int, char[])`: the degenerate requests answer "", the others run the loop. */
  method GetHash(values: Option<seq<Byte>>, len: Int32, alphabet: seq<char>) returns (r: Result<string, Exc>)
    ensures r == Hash(values, len, alphabet)
  {
    if len < 1 || |alphabet| == 0 || values.None? || |values.value| < 1 {
      return Success([]);
    }
    AsWrittenIsSlotIndex(|alphabet|);
    r := HashLoop(values.value, len, alphabet, AsWritten(|alphabet|));
  }

  /** The loop of `getHash`, including its `idxValues` bookkeeping, over a fresh `char[len]`. */
  method HashLoop(vs: seq<Byte>, len: Int32, alphabet: seq<char>, ghost index: Indexer) returns (r: Result<string, Exc>)
    requires |vs| > 0 && len > 0 && |alphabet| > 0 && IsSlotIndex(index, |alphabet|)
    ensures r == Fill(vs, len, alphabet, index, Iterations(|vs|, len))
  {
    var n := |vs|;
    var chars := new char[len](_ => '\0');
    assert chars[..] == seq(len, _ => '\0');
    var idxValues := 0;
    ModSmall(0, n);
    var amtIters := if n > len then n else len;
    var i := 0;
    while i < amtIters
      invariant 0 <= i <= amtIters
      invariant 0 <= idxValues <= n
      invariant idxValues < n ==> idxValues == i % n
      invariant idxValues == n ==> i % n == 0
      invariant Fill(vs, len, alphabet, index, i) == Success(chars[..])
    {
      idxValues := ResetValueIndex(idxValues, n);
      ghost var before := chars[..];
      var thrown := WriteSlot(chars, vs, alphabet, i, idxValues, index);
      FillNext(vs, len, alphabet, index, i, before);
      if thrown.Some? {
        FillFailureSticks(vs, len, alphabet, index, i + 1, amtIters);
        return Failure(thrown.value);
      }
      ModSucc(i, n);
      i := i + 1;
      idxValues := idxValues + 1;
    }
    return Success(chars[..]);
  }

  /**
   * `getHash(String, int, String)`: null for a null value; a null alphabet then fails on its
   * `toCharArray()`; otherwise the hash of the value's UTF-8 bytes over the alphabet's characters.
   */
  method GetHashOfString(value: Option<string>, len: Int32, alphabet: Option<string>) returns (r: Result<Option<string>, Exc>)
    ensures value.None? ==> r == Success(None)
    ensures value.Some? && alphabet.None? ==> r == Failure(NullPointer(""))
    ensures value.Some? && alphabet.Some? ==>
              match Hash(Some(Utf8(value.value)), len, alphabet.value)
              case Success(h) => r == Success(Some(h))
              case Failure(e) => r == Failure(e)
  {
    if value.None? {
      return Success(None);
    }
    if alphabet.None? {
      return Failure(NullPointer(""));
    }
    var h := GetHash(Some(Utf8(value.value)), len, alphabet.value);
    match h
    case Success(code) => r := Success(Some(code));
    case Failure(e) => r := Failure(e);
  }

  /* ---------------------------------------------------------------- */
  /* What the source promises of the code, and where it breaks         */
  /* ---------------------------------------------------------------- */

  /** `getHash` answers "" exactly for the degenerate requests. */
  lemma HashEmptyIff(values: Option<seq<Byte>>, len: int, alphabet: seq<char>)
    ensures Hash(values, len, alphabet) == Success([]) <==> Degenerate(values, len, alphabet)
  {
  }

  /** Otherwise a result has exactly `len` characters, all from the alphabet. */
  lemma HashShape(values: Option<seq<Byte>>, len: int, alphabet: seq<char>)
    requires !Degenerate(values, len, alphabet)
    requires Hash(values, len, alphabet).Success?
    ensures |Hash(values, len, alphabet).value| == len
    ensures forall c :: c in Hash(values, len, alphabet).value ==> c in alphabet
  {
    FillWritten(values.value, len, alphabet, AsWritten(|alphabet|), Iterations(|values.value|, len));
  }

  /** 255 zero bytes followed by -128 (the byte 0x80). */
  function CrashValues(): (r: seq<Byte>)
    ensures |r| == 256 && r[255] == -128
    ensures forall i :: 0 <= i < 255 ==> r[i] == 0
  {
    seq(256, i requires 0 <= i < 256 => if i == 255 then -128 else 0)
  }

  /** A three-letter alphabet of U+FF00, a code that makes 1 + 255 + code = 2^16. */
  const CrashAlphabet: seq<char> := ['\U{FF00}', '\U{FF00}', '\U{FF00}']

  lemma MixZero(i: nat, prev: int)
    ensures Mix(0, i, prev) == 0
  {
    assert Wrap32(0 * (i + 1)) == 0;
    assert Wrap32(0 * 13) == 0;
  }

  lemma CrashStep(i: nat, c: char)
    requires i < 255
    ensures Step(CrashValues(), 1, CrashAlphabet, AsWritten(3), i, [c]) == Success(['\U{FF00}'])
  {
    ModUnique(i, 1, i, 0);
    ModUnique(i, 256, 0, i);
    MixZero(i, c as int);
    assert CrashValues()[i % 256] == 0;
    assert PrevSlot(0, 1) == 0;
    assert AsWritten(3)(CrashValues()[i % |CrashValues()|], i, [c][PrevSlot(0, 1)] as int) == 0;
    assert [c][0 := CrashAlphabet[0]] == ['\U{FF00}'];
  }

  /** Iterations 0 to 254 see zero bytes and keep writing U+FF00 into the single slot. */
  lemma {:induction false} CrashPrefix(k: nat)
    requires 1 <= k <= 255
    ensures Fill(CrashValues(), 1, CrashAlphabet, AsWritten(3), k) == Success(['\U{FF00}'])
  {
    var zero := seq(1, _ => '\0');
    assert zero[0] == '\0';
    assert zero == ['\0'];
    CrashStep(0, '\0');
    FillNext(CrashValues(), 1, CrashAlphabet, AsWritten(3), 0, ['\0']);
    forall i | 1 <= i < 255
      ensures Step(CrashValues(), 1, CrashAlphabet, AsWritten(3), i, ['\U{FF00}']) == Success(['\U{FF00}'])
    {
      CrashStep(i, '\U{FF00}');
    }
    FillSteady(CrashValues(), CrashAlphabet, AsWritten(3), '\U{FF00}', k, 255);
  }

  /** A one-slot loop whose every later step rewrites the same character keeps that character. */
  lemma {:induction false} FillSteady(values: seq<Byte>, alphabet: seq<char>, index: Indexer, c: char, k: nat, bound: nat)
    requires |values| > 0 && 1 <= k <= bound
    requires Fill(values, 1, alphabet, index, 1) == Success([c])
    requires forall i :: 1 <= i < bound ==> Step(values, 1, alphabet, index, i, [c]) == Success([c])
    ensures Fill(values, 1, alphabet, index, k) == Success([c])
    decreases k
  {
    if k > 1 {
      FillSteady(values, alphabet, index, c, k - 1, bound);
      FillNext(values, 1, alphabet, index, k - 1, [c]);
    }
  }

  /**
   * As written, `getHash` throws for a 256-byte value, width 1 and this alphabet:
   * iteration 255 mixes -128 * 256 * 13 * 65536 = -13 * 2^31, which wraps to
   * `Integer.MIN_VALUE`; `Math.abs` keeps it negative and `% 3` gives index -2.
   */
  lemma HashCrashExample()
    ensures Hash(Some(CrashValues()), 1, CrashAlphabet) == Failure(ArrayIndexOutOfBounds(-2))
  {
    CrashPrefix(255);
    assert Wrap32(-128 * 256) == -32768;
    assert Wrap32(-32768 * 13) == -425984;
    assert Wrap32(1 + 255 + 0xFF00) == 65536;
    assert Wrap32(-425984 * 65536) == IntMinValue;
    assert Mix(-128, 255, 0xFF00) == IntMinValue;
    assert Abs32(IntMinValue) == IntMinValue;
    assert Rem(IntMinValue, 3) == -2;
    assert AsWritten(3)(CrashValues()[255 % 256], 255, ['\U{FF00}'][PrevSlot(255 % 1, 1)] as int) == -2;
    assert Step(CrashValues(), 1, CrashAlphabet, AsWritten(3), 255, ['\U{FF00}']) == Failure(ArrayIndexOutOfBounds(-2));
  }

  /** The corrected shard code; "" for the degenerate requests, as before. */
  function HashFixed(values: Option<seq<Byte>>, len: int, alphabet: seq<char>): string
  {
    if Degenerate(values, len, alphabet) then []
    else
      var f := Fill(values.value, len, alphabet, Corrected(|alphabet|), Iterations(|values.value|, len));
      FillInRange(values.value, len, alphabet, Corrected(|alphabet|), Iterations(|values.value|, len));
      f.value
  }

  /** The corrected code never throws: `len` alphabet characters for a non-degenerate request, "" otherwise. */
  lemma HashFixedShape(values: Option<seq<Byte>>, len: int, alphabet: seq<char>)
    ensures HashFixed(values, len, alphabet) == [] <==> Degenerate(values, len, alphabet)
    ensures !Degenerate(values, len, alphabet) ==> |HashFixed(values, len, alphabet)| == len
    ensures forall c :: c in HashFixed(values, len, alphabet) ==> c in alphabet
  {
    if !Degenerate(values, len, alphabet) {
      FillInRange(values.value, len, alphabet, Corrected(|alphabet|), Iterations(|values.value|, len));
      FillWritten(values.value, len, alphabet, Corrected(|alphabet|), Iterations(|values.value|, len));
    }
  }

  /** The correction changes nothing where the original returns. */
  lemma HashFixedAgrees(values: Option<seq<Byte>>, len: int, alphabet: seq<char>)
    requires Hash(values, len, alphabet).Success?
    ensures HashFixed(values, len, alphabet) == Hash(values, len, alphabet).value
  {
    if !Degenerate(values, len, alphabet) {
      FillAgrees(values.value, len, alphabet, AsWritten(|alphabet|), Corrected(|alphabet|), Iterations(|values.value|, len));
    }
  }
}
