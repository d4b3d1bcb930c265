/** Machine words read from memory: byte order, rounding up, and hexadecimal fields. */
module Words {
  import opened Bits

  const WORD := 0x1_0000_0000     // 2^32: unsigned int

  /** A little-endian load of 32 bits. */
  function Load(b0: byte, b1: byte, b2: byte, b3: byte): (r: nat)
    ensures r < WORD
  {
    b0 + 0x100 * b1 + 0x1_0000 * b2 + 0x100_0000 * b3
  }

  /** `be2le_u32`: each masked byte moves to the mirrored place. */
  function Be2Le(be: nat): (r: nat)
    requires be < WORD
    ensures r < WORD
  {
    (be % 0x100) * 0x100_0000 + (be / 0x100 % 0x100) * 0x1_0000
    + (be / 0x1_0000 % 0x100) * 0x100 + be / 0x100_0000 % 0x100
  }

  lemma LoadBytes(b0: byte, b1: byte, b2: byte, b3: byte)
    ensures var x := Load(b0, b1, b2, b3);
      x % 0x100 == b0 && x / 0x100 % 0x100 == b1 && x / 0x1_0000 % 0x100 == b2 && x / 0x100_0000 % 0x100 == b3
  {
    var x := Load(b0, b1, b2, b3);
    assert x / 0x100 == b1 + 0x100 * b2 + 0x1_0000 * b3;
    assert x / 0x1_0000 == b2 + 0x100 * b3;
    assert x / 0x100_0000 == b3;
  }

  /** Loading a big-endian word and swapping it gives its value. */
  lemma BigEndianValue(b0: byte, b1: byte, b2: byte, b3: byte)
    ensures Be2Le(Load(b0, b1, b2, b3)) == b0 * 0x100_0000 + b1 * 0x1_0000 + b2 * 0x100 + b3
  {
    LoadBytes(b0, b1, b2, b3);
  }

  /** A word is made of its four bytes. */
  lemma WordBytes(x: nat)
    requires x < WORD
    ensures x == Load(x % 0x100, x / 0x100 % 0x100, x / 0x1_0000 % 0x100, x / 0x100_0000)
    ensures x / 0x100_0000 < 0x100
  {
    var q1 := x / 0x100;
    var q2 := q1 / 0x100;
    var q3 := q2 / 0x100;
    assert x / 0x1_0000 == q2 && x / 0x100_0000 == q3;
    assert x == 0x100 * q1 + x % 0x100 && q1 == 0x100 * q2 + q1 % 0x100 && q2 == 0x100 * q3 + q2 % 0x100;
  }

  /** Swapping twice gives the word back. */
  lemma SwapTwice(x: nat)
    requires x < WORD
    ensures Be2Le(Be2Le(x)) == x
  {
    hide Be2Le;
    WordBytes(x);
    var b0, b1, b2, b3 := x % 0x100, x / 0x100 % 0x100, x / 0x1_0000 % 0x100, x / 0x100_0000;
    SwapOfBytes(b0, b1, b2, b3);
    SwapOfBytes(b3, b2, b1, b0);
  }

  lemma SwapOfBytes(b0: byte, b1: byte, b2: byte, b3: byte)
    ensures Be2Le(Load(b0, b1, b2, b3)) == Load(b3, b2, b1, b0)
  {
    BigEndianValue(b0, b1, b2, b3);
  }

  /** The four bytes of a big-endian word. */
  function BigEndian(x: nat): (b: seq<byte>)
    requires x < WORD
    ensures |b| == 4
  {
    [x / 0x100_0000, x / 0x1_0000 % 0x100, x / 0x100 % 0x100, x % 0x100]
  }

  /** The word at index `p` as the kernel reads it. */
  function ReadWord(mem: seq<byte>, p: nat): (r: nat)
    requires p + 4 <= |mem|
    ensures r < WORD
  {
    Be2Le(Load(mem[p], mem[p + 1], mem[p + 2], mem[p + 3]))
  }

  lemma ReadsBack(mem: seq<byte>, p: nat, x: nat)
    requires x < WORD && p + 4 <= |mem| && mem[p..p + 4] == BigEndian(x)
    ensures ReadWord(mem, p) == x
  {
    hide Be2Le, Load;
    var b, m := BigEndian(x), mem[p..p + 4];
    assert mem[p] == m[0] && mem[p + 1] == m[1] && mem[p + 2] == m[2] && mem[p + 3] == m[3];
    SwapOfBytes(b[0], b[1], b[2], b[3]);
    WordBytes(x);
  }

  /** `align`: `(n + a - 1) & ~(a - 1)` on unsigned ints. */
  function Align(n: nat, a: nat): nat
    requires 0 < a <= WORD
  {
    And((n + a - 1) % WORD, WORD - a)
  }

  lemma Pow2Of32()
    ensures Pow2(32) == WORD
  {
    assert Pow2(8) == 0x100;
    Pow2Twice(8);
    Pow2Twice(16);
  }

  lemma Pow2Twice(k: nat)
    ensures Pow2(k + k) == Pow2(k) * Pow2(k)
  {
    Pow2Add(k, k);
  }

  /** As long as nothing wraps, `align` rounds up to the least multiple of the power of two. */
  lemma AlignIsLeast(n: nat, k: nat)
    requires k <= 32 && n + Pow2(k) - 1 < WORD
    ensures Pow2(k) <= WORD
    ensures var r := Align(n, Pow2(k));
      && Base(r, k) == r && n <= r < n + Pow2(k)
      && forall m: nat :: Base(m, k) == m && m >= n ==> m >= r
  {
    hide Base, And;
    Pow2Of32();
    Pow2Monotone(k, 32);
    var x := n + Pow2(k) - 1;
    MaskHigh(x, k, 32);
    BaseOfMember(x, Base(x, k), k);
    forall m: nat | Base(m, k) == m && m >= n ensures m >= Base(x, k) {
      if m < Base(x, k) {
        WindowBelow(m, Base(x, k), k);
      }
    }
  }

  /** For 4: the multiple of 4 in `[n, n + 4)`. */
  lemma AlignFour(n: nat)
    requires n + 3 < WORD
    ensures Align(n, 4) == (n + 3) / 4 * 4
  {
    hide And, Base, Pow2;
    Pow2Of2();
    BaseFour(n + 3);
    Pow2Of32();
    MaskHigh(n + 3, 2, 32);
  }

  lemma Pow2Of2()
    ensures Pow2(2) == 4
  {
  }

  lemma BaseFour(p: nat)
    ensures Base(p, 2) == p / 4 * 4
  {
  }

  /** A slice of bytes that lie at `q` in memory. */
  lemma Slice(mem: seq<byte>, q: nat, e: seq<byte>, a: nat, b: nat)
    requires q + |e| <= |mem| && mem[q..q + |e|] == e && a <= b <= |e|
    ensures mem[q + a..q + b] == e[a..b]
  {
    var l, r := mem[q + a..q + b], e[a..b];
    forall k | 0 <= k < b - a ensures l[k] == r[k] {
      assert mem[q..q + |e|][a + k] == mem[q + (a + k)];
    }
  }

  // ---------------------------------------------------------------- hexadecimal fields

  /** The value of one character; anything that is not a digit counts as 0. */
  function HexValue(c: byte): (v: nat)
    ensures v < 16
  {
    if 48 <= c <= 57 then c - 48
    else if 97 <= c <= 102 then c - 97 + 10
    else if 65 <= c <= 70 then c - 65 + 10
    else 0
  }

  /** `hex_to_uint`. */
  method HexToUint(s: seq<byte>, len: nat) returns (result: nat)
    requires len <= |s|
    ensures result == HexSum(s[..len]) % WORD
  {
    result := 0;
    var i := 0;
    while i < len
      invariant i <= len && result == HexSum(s[..i]) % WORD
    {
      assert s[..i + 1][..i] == s[..i];
      ShiftedSum(HexSum(s[..i]), HexValue(s[i]));
      result := (result * 16) % WORD;
      result := (result + HexValue(s[i])) % WORD;
      i := i + 1;
    }
  }

  lemma ShiftedSum(x: nat, v: nat)
    requires v < 16
    ensures ((x % WORD * 16) % WORD + v) % WORD == (16 * x + v) % WORD
  {
    var q, r := x / WORD, x % WORD;
    assert x == WORD * q + r;
    var p, t := r * 16 / WORD, r * 16 % WORD;
    assert r * 16 == WORD * p + t;
    assert 16 * x + v == WORD * (16 * q + p) + (t + v);
    ModShift(16 * q + p, t + v);
  }

  lemma ModShift(q: nat, r: nat)
    ensures (WORD * q + r) % WORD == r % WORD
  {
  }

  /** The number a string of hexadecimal digits denotes. */
  function HexSum(s: seq<byte>): nat {
    if s == [] then 0 else 16 * HexSum(s[..|s| - 1]) + HexValue(s[|s| - 1])
  }

  function HexDigit(v: nat, upper: bool): byte
    requires v < 16
  {
    if v < 10 then 48 + v else if upper then 55 + v else 87 + v
  }

  /** The bytes of a text. */
  function Ascii(s: string): (r: seq<byte>)
    requires forall i :: 0 <= i < |s| ==> s[i] as int < 128
    ensures |r| == |s| && forall i :: 0 <= i < |s| ==> r[i] == s[i] as int
  {
    if s == "" then [] else [s[0] as int] + Ascii(s[1..])
  }

  lemma JunkIsZero(c: byte)
    ensures HexValue(c) == 0 || exists v: nat, upper :: v < 16 && HexDigit(v, upper) == c
  {
    var v := HexValue(c);
    assert v == 0 || HexDigit(v, true) == c || HexDigit(v, false) == c;
  }

  lemma HexAlphabet(v: nat)
    requires v < 16
    ensures HexDigit(v, true) == "0123456789ABCDEF"[v] as int
    ensures HexDigit(v, false) == "0123456789abcdef"[v] as int
  {
  }

  /** `n` digits of `x`, most significant first, in either case. */
  function HexDigits(x: nat, n: nat, upper: bool): (s: seq<byte>)
    ensures |s| == n
  {
    if n == 0 then [] else HexDigits(x / 16, n - 1, upper) + [HexDigit(x % 16, upper)]
  }

  function Pow16(n: nat): nat {
    if n == 0 then 1 else 16 * Pow16(n - 1)
  }

  /** Reading back what was written, for every value that fits the digits. */
  lemma {:induction false} HexRoundTrip(x: nat, n: nat, upper: bool)
    requires x < Pow16(n)
    ensures HexSum(HexDigits(x, n, upper)) == x
  {
    if n > 0 {
      var s := HexDigits(x, n, upper);
      assert s[..n - 1] == HexDigits(x / 16, n - 1, upper);
      HexRoundTrip(x / 16, n - 1, upper);
    }
  }

  /** Eight digits carry every 32-bit value. */
  lemma EightDigits(x: nat, upper: bool)
    requires x < WORD
    ensures HexSum(HexDigits(x, 8, upper)) % WORD == x
  {
    assert Pow16(4) == 0x1_0000;
    assert Pow16(8) == WORD;
    HexRoundTrip(x, 8, upper);
  }
}
