/** Bytes, little-endian 32-bit words, UTF-16 code units and the sets of bits that a
    policy word stands for. */
module Words {

  newtype byte = x: int | 0 <= x < 0x100
  type u32 = x: int | 0 <= x < 0x1_0000_0000

  /** A UTF-16 code unit (`wchar_t` on Windows). */
  newtype WChar = x: int | 0 <= x < 0x1_0000

  /** A file name. */
  type Name = seq<WChar>

  /** `static_cast<uint32_t>` of a size. */
  function Truncate(n: nat): (v: u32)
    ensures n < 0x1_0000_0000 ==> v == n
  {
    n % 0x1_0000_0000
  }

  /** The four bytes of a word, low byte first. */
  function U32Bytes(v: u32): (b: seq<byte>)
    ensures |b| == 4
  {
    [(v % 0x100) as byte, (v / 0x100 % 0x100) as byte, (v / 0x1_0000 % 0x100) as byte, (v / 0x100_0000) as byte]
  }

  /** The word stored at byte `at`. */
  function U32At(b: seq<byte>, at: nat): (v: u32)
    requires at + 4 <= |b|
  {
    (b[at] as int) + 0x100 * (b[at + 1] as int) + 0x1_0000 * (b[at + 2] as int) + 0x100_0000 * (b[at + 3] as int)
  }

  function Zeros(n: nat): (b: seq<byte>)
    ensures |b| == n
  {
    seq<byte>(n, _ => 0)
  }

  lemma Digits(v: u32)
    ensures v == v % 0x100 + 0x100 * (v / 0x100 % 0x100) + 0x1_0000 * (v / 0x1_0000 % 0x100) + 0x100_0000 * (v / 0x100_0000)
  {
    var q := v / 0x100;
    var r := q / 0x100;
    assert v == v % 0x100 + 0x100 * q;
    assert q == q % 0x100 + 0x100 * r && r == v / 0x1_0000;
    assert r == r % 0x100 + 0x100 * (r / 0x100) && r / 0x100 == v / 0x100_0000;
  }

  lemma U32RoundTrip(v: u32, b: seq<byte>, at: nat)
    requires at + 4 <= |b| && b[at..at + 4] == U32Bytes(v)
    ensures U32At(b, at) == v
  {
    var s := b[at..at + 4];
    assert b[at] == s[0] && b[at + 1] == s[1] && b[at + 2] == s[2] && b[at + 3] == s[3];
    Digits(v);
  }

  lemma SliceOfSlice<T>(b: seq<T>, from: nat, to: nat, lo: nat, hi: nat)
    requires from <= to <= |b| && lo <= hi <= to - from
    ensures b[from..to][lo..hi] == b[from + lo..from + hi]
  {
    var x, y := b[from..to][lo..hi], b[from + lo..from + hi];
    forall k | 0 <= k < |x| ensures x[k] == y[k] {
      assert x[k] == b[from..to][lo + k];
    }
  }

  /** The bytes of a run of words. */
  function WordsBytes(ws: seq<u32>): (b: seq<byte>)
    ensures |b| == 4 * |ws|
  {
    if ws == [] then [] else U32Bytes(ws[0]) + WordsBytes(ws[1..])
  }

  lemma {:induction false} WordsBytesAt(ws: seq<u32>, i: nat)
    requires i < |ws|
    ensures WordsBytes(ws)[4 * i..4 * i + 4] == U32Bytes(ws[i])
  {
    if i > 0 {
      WordsBytesAt(ws[1..], i - 1);
      assert WordsBytes(ws)[4 * i..4 * i + 4] == WordsBytes(ws[1..])[4 * (i - 1)..4 * (i - 1) + 4];
    }
  }

  lemma {:induction false} WordsBytesAppend(ws: seq<u32>, w: u32)
    ensures WordsBytes(ws + [w]) == WordsBytes(ws) + U32Bytes(w)
  {
    if ws == [] {
      assert ws + [w] == [w];
    } else {
      assert (ws + [w])[1..] == ws[1..] + [w];
      WordsBytesAppend(ws[1..], w);
    }
  }

  function LowHigh(c: WChar): (b: seq<byte>)
    ensures |b| == 2
  {
    [(c as int % 0x100) as byte, (c as int / 0x100) as byte]
  }

  /** The bytes of a run of code units, low byte of each first. */
  function WideBytes(s: seq<WChar>): (b: seq<byte>)
    ensures |b| == 2 * |s|
  {
    if s == [] then [] else LowHigh(s[0]) + WideBytes(s[1..])
  }

  /** The code unit stored at byte `at`. */
  function WideAt(b: seq<byte>, at: nat): (c: WChar)
    requires at + 2 <= |b|
  {
    ((b[at] as int) + 0x100 * (b[at + 1] as int)) as WChar
  }

  lemma {:induction false} WideBytesAt(s: seq<WChar>, i: nat)
    requires i < |s|
    ensures WideAt(WideBytes(s), 2 * i) == s[i]
  {
    if i > 0 {
      WideBytesAt(s[1..], i - 1);
      assert WideBytes(s)[2 * i] == WideBytes(s[1..])[2 * (i - 1)];
      assert WideBytes(s)[2 * i + 1] == WideBytes(s[1..])[2 * (i - 1) + 1];
    }
  }

  lemma {:induction false} WideBytesAppend(s: seq<WChar>, c: WChar)
    ensures WideBytes(s + [c]) == WideBytes(s) + LowHigh(c)
  {
    if s == [] {
      assert s + [c] == [c];
    } else {
      assert (s + [c])[1..] == s[1..] + [c];
      WideBytesAppend(s[1..], c);
    }
  }

  /** A 32-bit mask or policy as the set of its one bits. */
  type Bits = s: set<nat> | forall i <- s :: i < 32

  function Pow2(n: nat): (p: nat)
    ensures p > 0
  {
    if n == 0 then 1 else 2 * Pow2(n - 1)
  }

  /** The bits of `s` from bit `i` on, as a number whose lowest bit is bit `i`. */
  function WordFrom(s: Bits, i: nat): (v: nat)
    requires i <= 32
    ensures v < Pow2(32 - i)
    decreases 32 - i
  {
    if i == 32 then 0 else (if i in s then 1 else 0) + 2 * WordFrom(s, i + 1)
  }

  function BitsFrom(v: nat, i: nat): (s: Bits)
    requires i <= 32
    ensures forall k <- s :: i <= k
    decreases 32 - i
  {
    if i == 32 then {} else (if v % 2 == 1 then {i} else {}) + BitsFrom(v / 2, i + 1)
  }

  lemma {:induction false} BitsFromWordFrom(s: Bits, i: nat)
    requires i <= 32
    ensures BitsFrom(WordFrom(s, i), i) == set k | k in s && i <= k
    decreases 32 - i
  {
    if i < 32 {
      BitsFromWordFrom(s, i + 1);
      assert WordFrom(s, i) / 2 == WordFrom(s, i + 1);
    }
  }

  lemma {:induction false} Pow2Of32()
    ensures Pow2(32) == 0x1_0000_0000
  {
    assert Pow2(8) == 0x100;
    assert Pow2(16) == 0x1_0000;
    assert Pow2(24) == 0x100_0000;
  }

  /** The `uint32_t` with exactly these bits. */
  function WordOf(s: Bits): (v: u32)
    ensures BitsOf(v) == s
  {
    Pow2Of32();
    BitsFromWordFrom(s, 0);
    assert s == set k | k in s && 0 <= k;
    WordFrom(s, 0)
  }

  function BitsOf(v: u32): (s: Bits) {
    BitsFrom(v, 0)
  }

  lemma {:induction false} HigherBitsOnly(s: Bits, t: Bits, i: nat)
    requires i <= 32 && forall k: nat :: i <= k < 32 ==> (k in s <==> k in t)
    ensures WordFrom(s, i) == WordFrom(t, i)
    decreases 32 - i
  {
    if i < 32 {
      HigherBitsOnly(s, t, i + 1);
    }
  }

  lemma {:induction false} WordFromBitsFrom(v: nat, i: nat)
    requires i <= 32 && v < Pow2(32 - i)
    ensures WordFrom(BitsFrom(v, i), i) == v
    decreases 32 - i
  {
    if i < 32 {
      WordFromBitsFrom(v / 2, i + 1);
      HigherBitsOnly(BitsFrom(v, i), BitsFrom(v / 2, i + 1), i + 1);
    }
  }

  /** Every word comes from its bits, as every set of bits from its word. */
  lemma WordOfBits(v: u32)
    ensures WordOf(BitsOf(v)) == v
  {
    Pow2Of32();
    WordFromBitsFrom(v, 0);
  }

  // ---- What the bytes and bits are ----

  /** The low byte comes first, of words and of code units. */
  lemma LowByteFirst()
    ensures U32Bytes(0x0403_0201) == [1, 2, 3, 4] && U32At([1, 2, 3, 4], 0) == 0x0403_0201
    ensures WideBytes([0x0201, 0x0403]) == [1, 2, 3, 4] && WideAt([1, 2, 3, 4], 2) == 0x0403
  {
    var s: seq<WChar> := [0x0201, 0x0403];
    assert s[1..] == [0x0403] && s[1..][1..] == [];
    assert WideBytes(s[1..]) == [3, 4] + [];
  }

  lemma {:induction false} BitFrom(v: nat, i: nat, k: nat)
    requires i <= k < 32
    ensures k in BitsFrom(v, i) <==> v / Pow2(k - i) % 2 == 1
    decreases 32 - i
  {
    if i < k {
      BitFrom(v / 2, i + 1, k);
      HalfPow2(v, k - i - 1);
    }
  }

  lemma HalfPow2(v: nat, j: nat)
    ensures v / 2 / Pow2(j) == v / Pow2(j + 1)
  {
    var p := Pow2(j);
    var q := v / (2 * p);
    var r := v % (2 * p);
    assert v == 2 * p * q + r && 0 <= r < 2 * p;
    assert v / 2 == p * q + r / 2 && 0 <= r / 2 < p;
    Quotient(v / 2, p, q, r / 2);
  }

  lemma Quotient(v: nat, p: nat, q: nat, r: nat)
    requires v == p * q + r && r < p
    ensures v / p == q
  {
    var d := v / p - q;
    assert v == p * (v / p) + v % p;
    assert p * d == r - v % p;
    assert 0 - p < p * d < p;
    assert d >= 1 ==> p * d >= p;
    assert d <= -1 ==> p * d <= 0 - p;
  }

  /** Bit `k` is worth 2 to the power `k`. */
  lemma BitIs(v: u32, k: nat)
    ensures k in BitsOf(v) <==> k < 32 && v / Pow2(k) % 2 == 1
  {
    if k < 32 { BitFrom(v, 0, k); }
  }
}
