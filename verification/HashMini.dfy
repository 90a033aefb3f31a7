/** The string hashes of utils/hash_mini.hpp. Text is the bytes before the first
    zero. `char` is signed, so a byte of 0x80 or more is sign-extended before the
    exclusive or. */
module HashMini {
  import opened Bytes
  import opened Bits

  const IV_DEFAULT: u64 := 0x100000001b3
  const IV_32_DEFAULT: u64 := 0x1000193
  const FNV1A_PRIME: u64 := 0xcbf29ce484222325
  const FNV1A_32_T7_PRIME: u64 := 0x4B9ACE2F

  function Lower(c: byte): byte {
    if 65 <= c <= 90 then c + 32
    else if c == 92 then 47
    else c
  }

  /** Two characters count as one exactly when they are the same, the same letter in
      either case, or the two slashes; and a lowered one is no capital and no backslash. */
  lemma LowerIff(c: byte, d: byte)
    ensures Lower(c) == Lower(d) <==>
      || c == d || (65 <= c <= 90 && d == c + 32) || (65 <= d <= 90 && c == d + 32)
      || (c == 47 && d == 92) || (c == 92 && d == 47)
    ensures Lower(Lower(c)) == Lower(c) && !(65 <= Lower(c) <= 90) && Lower(c) != 92
  {
  }

  function LowerAll(s: bytes): (r: bytes)
    ensures |r| == |s|
  {
    seq(|s|, i requires 0 <= i < |s| => Lower(s[i]))
  }

  /** The bytes of a C string: everything before the first zero. */
  function Text(s: bytes): (r: bytes)
    ensures r <= s && 0 !in r
    ensures |r| < |s| ==> s[|r|] == 0
  {
    if s == [] || s[0] == 0 then [] else [s[0]] + Text(s[1..])
  }

  function SignExtend(c: byte): u64 {
    if c < 0x80 then c else WORD - 0x100 + c
  }

  function Step(h: u64, c: byte, iv: u64): u64 {
    (Xor(h, SignExtend(Lower(c))) * iv) % WORD
  }

  function Fold(t: bytes, h: u64, iv: u64): u64 {
    if t == [] then h else Fold(t[1..], Step(h, t[0], iv), iv)
  }

  method Hash64A(str: bytes, start: u64, iv: u64) returns (hash: u64)
    ensures hash == Fold(Text(str), start, iv)
  {
    hash := start;
    var data := 0;
    while data < |str| && str[data] != 0
      invariant 0 <= data <= |str|
      invariant Fold(Text(str), start, iv) == Fold(Text(str[data..]), hash, iv)
    {
      assert Text(str[data..]) == [str[data]] + Text(str[data..][1..]);
      assert str[data..][1..] == str[data + 1..];
      hash := Step(hash, str[data], iv);
      data := data + 1;
    }
  }

  function HashT7Pre(str: bytes): u32 {
    Fold(Text(str), FNV1A_32_T7_PRIME, IV_32_DEFAULT) % WORD32
  }

  function HashT7Post(hash: u32): u32 {
    (hash * IV_32_DEFAULT) % WORD % WORD32
  }

  function HashT7(str: bytes): u32 {
    HashT7Post(HashT7Pre(str))
  }

  /** `str` is given without its terminator; the empty string hashes to zero. */
  function HashSecure(pattern: bytes, start: u64, str: bytes, iv: u64): u64 {
    if Text(str) == [] then 0
    else
      var base := Fold(Text(pattern), Step(start, str[0], iv), iv);
      Fold(Text(str[1..]), base, iv)
  }

  // ----- The fold over concatenated text

  lemma {:induction false} FoldConcat(a: bytes, b: bytes, h: u64, iv: u64)
    ensures Fold(a + b, h, iv) == Fold(b, Fold(a, h, iv), iv)
  {
    if a == [] {
      assert a + b == b;
    } else {
      assert (a + b)[1..] == a[1..] + b;
      FoldConcat(a[1..], b, Step(h, a[0], iv), iv);
    }
  }

  /** One pass over the first character, the pattern, then the rest. */
  lemma HashSecureIsOnePass(pattern: bytes, start: u64, str: bytes, iv: u64)
    requires Text(str) != []
    ensures HashSecure(pattern, start, str, iv)
         == Fold(Text(str)[..1] + Text(pattern) + Text(str)[1..], start, iv)
  {
    var t := Text(str);
    assert t[..1] == [str[0]] && t[1..] == Text(str[1..]);
    FoldConcat(t[..1] + Text(pattern), t[1..], start, iv);
    FoldConcat(t[..1], Text(pattern), start, iv);
    assert Fold([str[0]], start, iv) == Step(start, str[0], iv);
  }

  // ----- Injectivity in the start value

  lemma WordModulus()
    ensures Pow2(64) == WORD && Pow2(32) == WORD32
  {
    WordIsPow2();
  }

  lemma CongruentDifference(a: int, b: int, m: int)
    requires m > 0 && a % m == b % m
    ensures (a - b) % m == 0
  {
    assert a - b == m * (a / m) - m * (b / m) == m * (a / m - b / m);
    DivModUnique(a - b, a / m - b / m, 0, m);
  }

  lemma SmallMultiple(d: int, m: int)
    requires -m < d < m && d % m == 0
    ensures d == 0
  {
    assert d == m * (d / m);
    MulAtLeast(m, d / m);
    MulAtLeast(m, -(d / m));
  }

  lemma OddMultiplyInjective(x: nat, y: nat, iv: nat, k: nat)
    requires iv % 2 == 1 && x < Pow2(k) && y < Pow2(k)
    requires (x * iv) % Pow2(k) == (y * iv) % Pow2(k)
    ensures x == y
  {
    CongruentDifference(x * iv, y * iv, Pow2(k));
    assert (x - y) * iv == x * iv - y * iv;
    OddCancel(x - y, iv, k);
    SmallMultiple(x - y, Pow2(k));
  }

  lemma XorInjective(a: nat, b: nat, c: nat)
    requires Xor(a, c) == Xor(b, c)
    ensures a == b
  {
    XorCancel(a, c);
    XorCancel(b, c);
  }

  lemma StepInjective(a: u64, b: u64, c: byte, d: byte, iv: u64)
    requires iv % 2 == 1 && Step(a, c, iv) == Step(b, d, iv)
    ensures Xor(a, SignExtend(Lower(c))) == Xor(b, SignExtend(Lower(d)))
  {
    WordModulus();
    XorBound(a, SignExtend(Lower(c)), 64);
    XorBound(b, SignExtend(Lower(d)), 64);
    OddMultiplyInjective(Xor(a, SignExtend(Lower(c))), Xor(b, SignExtend(Lower(d))), iv, 64);
  }

  /** Hashing any text is injective in the start value for every odd multiplier. */
  lemma {:induction false} HashStartInjective(t: bytes, a: u64, b: u64, iv: u64)
    requires iv % 2 == 1 && Fold(t, a, iv) == Fold(t, b, iv)
    ensures a == b
    decreases |t|
  {
    if t != [] {
      HashStartInjective(t[1..], Step(a, t[0], iv), Step(b, t[0], iv), iv);
      StepInjective(a, b, t[0], t[0], iv);
      XorInjective(a, b, SignExtend(Lower(t[0])));
    }
  }

  ghost predicate DifferOnce(s: bytes, t: bytes, k: nat) {
    && |s| == |t| && k < |s|
    && Lower(s[k]) != Lower(t[k])
    && forall i :: 0 <= i < |s| && i != k ==> Lower(s[i]) == Lower(t[i])
  }

  /** Only the lowered characters matter: case and slash direction do not. */
  lemma {:induction false} FoldIgnoresCase(s: bytes, t: bytes, h: u64, iv: u64)
    requires LowerAll(s) == LowerAll(t)
    ensures Fold(s, h, iv) == Fold(t, h, iv)
    decreases |s|
  {
    assert |LowerAll(s)| == |LowerAll(t)|;
    if s != [] {
      assert Lower(s[0]) == LowerAll(s)[0] == LowerAll(t)[0] == Lower(t[0]);
      assert LowerAll(s[1..]) == LowerAll(s)[1..] == LowerAll(t)[1..] == LowerAll(t[1..]);
      FoldIgnoresCase(s[1..], t[1..], Step(h, s[0], iv), iv);
    }
  }

  lemma CaseAndSlashInvariant(s: bytes, t: bytes)
    requires 0 !in s && 0 !in t && LowerAll(s) == LowerAll(t)
    ensures forall h: u64, iv: u64 :: Fold(Text(s), h, iv) == Fold(Text(t), h, iv)
    ensures HashT7(s) == HashT7(t)
    ensures forall p: bytes, h: u64, iv: u64 :: HashSecure(p, h, s, iv) == HashSecure(p, h, t, iv)
  {
    TextWhole(s);
    TextWhole(t);
    forall h: u64, iv: u64
      ensures Fold(Text(s), h, iv) == Fold(Text(t), h, iv)
    {
      FoldIgnoresCase(s, t, h, iv);
    }
    forall p: bytes, h: u64, iv: u64
      ensures HashSecure(p, h, s, iv) == HashSecure(p, h, t, iv)
    {
      SecureIgnoresCase(p, h, s, t, iv);
    }
  }

  lemma LowerConcat(a: bytes, b: bytes)
    ensures LowerAll(a + b) == LowerAll(a) + LowerAll(b)
  {
  }

  lemma LowerSplit(s: bytes)
    requires s != []
    ensures LowerAll(s[..1]) == LowerAll(s)[..1] && LowerAll(s[1..]) == LowerAll(s)[1..]
  {
  }

  lemma SecureIgnoresCase(p: bytes, h: u64, s: bytes, t: bytes, iv: u64)
    requires Text(s) == s && Text(t) == t && LowerAll(s) == LowerAll(t)
    ensures HashSecure(p, h, s, iv) == HashSecure(p, h, t, iv)
  {
    assert |LowerAll(s)| == |LowerAll(t)|;
    hide HashSecure, Fold, LowerAll;
    if s == [] {
      assert t == [];
    } else {
      HashSecureIsOnePass(p, h, s, iv);
      HashSecureIsOnePass(p, h, t, iv);
      var a, b := s[..1] + Text(p) + s[1..], t[..1] + Text(p) + t[1..];
      LowerSplit(s);
      LowerSplit(t);
      LowerConcat(s[..1] + Text(p), s[1..]);
      LowerConcat(t[..1] + Text(p), t[1..]);
      LowerConcat(s[..1], Text(p));
      LowerConcat(t[..1], Text(p));
      FoldIgnoresCase(a, b, h, iv);
    }
  }

  lemma {:induction false} TextWhole(s: bytes)
    requires 0 !in s
    ensures Text(s) == s
  {
    if s != [] {
      TextWhole(s[1..]);
    }
  }

  /** One differing character always changes the hash. */
  lemma OneDifferenceNeverCollides(s: bytes, t: bytes, k: nat, h: u64, iv: u64)
    requires DifferOnce(s, t, k) && iv % 2 == 1
    ensures Fold(s, h, iv) != Fold(t, h, iv)
  {
    var hs, ht := Fold(s[..k], h, iv), Fold(t[..k], h, iv);
    SplitAt(s, k, h, iv);
    SplitAt(t, k, h, iv);
    assert LowerAll(s[..k]) == LowerAll(t[..k]);
    assert LowerAll(s[k + 1..]) == LowerAll(t[k + 1..]);
    FoldIgnoresCase(s[..k], t[..k], h, iv);
    FoldIgnoresCase(s[k + 1..], t[k + 1..], Step(hs, s[k], iv), iv);
    if Fold(s, h, iv) == Fold(t, h, iv) {
      HashStartInjective(t[k + 1..], Step(hs, s[k], iv), Step(hs, t[k], iv), iv);
      StepInjective(hs, hs, s[k], t[k], iv);
      XorSymmetric(hs, SignExtend(Lower(s[k])));
      XorSymmetric(hs, SignExtend(Lower(t[k])));
      XorInjective(SignExtend(Lower(s[k])), SignExtend(Lower(t[k])), hs);
      assert false;
    }
  }

  lemma SplitAt(s: bytes, k: nat, h: u64, iv: u64)
    requires k < |s|
    ensures Fold(s, h, iv) == Fold(s[k + 1..], Step(Fold(s[..k], h, iv), s[k], iv), iv)
  {
    assert s == s[..k] + s[k..];
    FoldConcat(s[..k], s[k..], h, iv);
    assert s[k..][1..] == s[k + 1..];
  }

  // ----- HashT7 as 32-bit FNV-1a

  /** One step of 32-bit FNV-1a: exclusive or with the octet, then the prime. */
  function Fnv32Step(h: u32, x: u32): u32 {
    (Xor32(h, x) * IV_32_DEFAULT) % WORD32
  }

  function Xor32(a: u32, b: u32): (r: nat)
    ensures r < WORD32
  {
    WordModulus();
    XorBound(a, b, 32);
    Xor(a, b)
  }

  /** FNV-1a over a sequence of values; for octets this is the standard hash. */
  function Fnv32(ws: seq<u32>, h: u32): u32 {
    if ws == [] then h else Fnv32(ws[1..], Fnv32Step(h, ws[0]))
  }

  function Widen(c: byte): u32 {
    if c < 0x80 then c else WORD32 - 0x100 + c
  }

  /** The characters as the code widens them, seen in 32 bits. */
  function Widened(t: bytes): (r: seq<u32>)
    ensures |r| == |t|
  {
    seq(|t|, i requires 0 <= i < |t| => Widen(t[i]))
  }

  lemma WidenIsTruncation(c: byte)
    ensures SignExtend(c) % WORD32 == Widen(c)
  {
    if c < 0x80 {
      DivModUnique(c, 0, c, WORD32);
    } else {
      DivModUnique(WORD - 0x100 + c, WORD32 - 1, WORD32 - 0x100 + c, WORD32);
    }
  }

  lemma TruncateProduct(x: nat, iv: nat)
    ensures (x * iv) % WORD % WORD32 == ((x % WORD32) * iv) % WORD32
  {
    var q, r := x / WORD32, x % WORD32;
    var p := (x * iv) / WORD;
    var z := (x * iv) % WORD;
    assert x * iv == WORD * p + z;
    assert x * iv == (WORD32 * q + r) * iv == WORD32 * (q * iv) + r * iv;
    var y := (r * iv) / WORD32;
    assert r * iv == WORD32 * y + (r * iv) % WORD32;
    assert z == WORD32 * (q * iv + y - WORD32 * p) + (r * iv) % WORD32;
    DivModUnique(z, q * iv + y - WORD32 * p, (r * iv) % WORD32, WORD32);
  }

  lemma StepTruncates(h: u64, c: byte)
    ensures Step(h, c, IV_32_DEFAULT) % WORD32 == Fnv32Step(h % WORD32, Widen(Lower(c)))
  {
    WidenIsTruncation(Lower(c));
    WordModulus();
    TruncateProduct(Xor(h, SignExtend(Lower(c))), IV_32_DEFAULT);
    XorMod(h, SignExtend(Lower(c)), 32);
  }

  lemma {:induction false} FoldTruncates(t: bytes, h: u64)
    ensures Fold(t, h, IV_32_DEFAULT) % WORD32 == Fnv32(Widened(LowerAll(t)), h % WORD32)
    decreases |t|
  {
    if t != [] {
      StepTruncates(h, t[0]);
      FoldTruncates(t[1..], Step(h, t[0], IV_32_DEFAULT));
      assert Widened(LowerAll(t))[1..] == Widened(LowerAll(t[1..]));
    }
  }

  lemma PostIsZeroStep(h: u32)
    ensures HashT7Post(h) == Fnv32([0], h)
  {
    XorZero(h);
    TruncateProduct(h, IV_32_DEFAULT);
    DivModUnique(h, 0, h, WORD32);
    assert Fnv32([0], h) == Fnv32Step(h, 0);
  }

  /** The 64-bit computation truncated at the end is the 32-bit walk over the
      lowered, widened text and its terminating zero. */
  lemma HashT7IsFnvOfWidened(str: bytes)
    ensures HashT7(str) == Fnv32(Widened(LowerAll(Text(str))) + [0], FNV1A_32_T7_PRIME)
  {
    FoldTruncates(Text(str), FNV1A_32_T7_PRIME);
    PostIsZeroStep(HashT7Pre(str));
    FnvConcat(Widened(LowerAll(Text(str))), [0], FNV1A_32_T7_PRIME);
  }

  lemma {:induction false} FnvConcat(a: seq<u32>, b: seq<u32>, h: u32)
    ensures Fnv32(a + b, h) == Fnv32(b, Fnv32(a, h))
    decreases |a|
  {
    if a == [] {
      assert a + b == b;
    } else {
      assert (a + b)[1..] == a[1..] + b;
      FnvConcat(a[1..], b, Fnv32Step(h, a[0]));
    }
  }

  lemma FnvStepInjective(a: u32, b: u32, x: u32, y: u32)
    requires Fnv32Step(a, x) == Fnv32Step(b, y)
    ensures Xor(a, x) == Xor(b, y)
  {
    WordModulus();
    OddMultiplyInjective(Xor32(a, x), Xor32(b, y), IV_32_DEFAULT, 32);
  }

  lemma {:induction false} FnvStartInjective(ws: seq<u32>, a: u32, b: u32)
    requires Fnv32(ws, a) == Fnv32(ws, b)
    ensures a == b
    decreases |ws|
  {
    if ws != [] {
      FnvStartInjective(ws[1..], Fnv32Step(a, ws[0]), Fnv32Step(b, ws[0]));
      FnvStepInjective(a, b, ws[0], ws[0]);
      XorInjective(a, b, ws[0]);
    }
  }

  lemma FnvOneDifference(p: seq<u32>, x: u32, y: u32, q: seq<u32>, h: u32)
    requires x != y
    ensures Fnv32(p + [x] + q, h) != Fnv32(p + [y] + q, h)
  {
    FnvConcat(p + [x], q, h);
    FnvConcat(p, [x], h);
    FnvConcat(p + [y], q, h);
    FnvConcat(p, [y], h);
    var g := Fnv32(p, h);
    var gx, gy := Fnv32Step(g, x), Fnv32Step(g, y);
    assert Fnv32([x], g) == gx && Fnv32([y], g) == gy;
    if Fnv32(q, gx) == Fnv32(q, gy) {
      FnvStartInjective(q, gx, gy);
      FnvStepInjective(g, g, x, y);
      XorSymmetric(g, x);
      XorSymmetric(g, y);
      XorInjective(x, y, g);
      assert false;
    }
  }

  lemma FnvDifferAt(a: seq<u32>, b: seq<u32>, k: nat, h: u32)
    requires |a| == |b| && k < |a| && a[k] != b[k]
    requires forall i :: 0 <= i < |a| && i != k ==> a[i] == b[i]
    ensures Fnv32(a, h) != Fnv32(b, h)
  {
    var p, q := a[..k], a[k + 1..];
    assert a == p + [a[k]] + q;
    assert b == p + [b[k]] + q;
    FnvOneDifference(p, a[k], b[k], q, h);
  }

  /** Two names that differ in one character after lowering never share a HashT7. */
  lemma HashT7OneDifference(s: bytes, t: bytes, k: nat)
    requires 0 !in s && 0 !in t && DifferOnce(s, t, k)
    ensures HashT7(s) != HashT7(t)
  {
    TextWhole(s);
    TextWhole(t);
    HashT7IsFnvOfWidened(s);
    HashT7IsFnvOfWidened(t);
    FnvDifferAt(Widened(LowerAll(s)) + [0], Widened(LowerAll(t)) + [0], k, FNV1A_32_T7_PRIME);
  }

  predicate Ascii(t: bytes) { forall i :: 0 <= i < |t| ==> t[i] < 0x80 }

  /** For text with at most one byte of 0x80 or more, HashT7 is standard FNV-1a
      of the lowered text and its terminator exactly when there is none. */
  lemma HashT7IsFnvIffAscii(str: bytes, k: nat)
    requires forall i :: 0 <= i < |Text(str)| && i != k ==> Text(str)[i] < 0x80
    ensures HashT7(str) == Fnv32(LowerAll(Text(str)) + [0], FNV1A_32_T7_PRIME) <==> Ascii(Text(str))
  {
    HashT7IsFnvOfWidened(str);
    var l: seq<u32> := LowerAll(Text(str)) + [0];
    var w := Widened(LowerAll(Text(str))) + [0];
    if Ascii(Text(str)) {
      assert w == l;
    } else {
      FnvDifferAt(w, l, k, FNV1A_32_T7_PRIME);
    }
  }
}
