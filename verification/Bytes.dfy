/** Fixed-width values shared by every component: bytes, pages, digests, machine
    integers, and the two injectivity facts about encodings that the hash-chain
    arguments rest on. */
module Bytes {

  type byte = bv8

  const PAGE_SIZE: nat := 4096

  const U32_LIMIT: nat := 0x1_0000_0000
  const U64_LIMIT: nat := 0x1_0000_0000_0000_0000

  type u32 = n: nat | n < U32_LIMIT
  type u64 = n: nat | n < U64_LIMIT

  type Page = s: seq<byte> | |s| == PAGE_SIZE witness seq(PAGE_SIZE, _ => 0)

  /** A hash output.  Its bytes are its value, so `as_bytes` is the identity. */
  type Digest = s: seq<byte> | |s| == 32 witness seq(32, _ => 0)

  /** The hash is a parameter of the whole development: nothing is assumed of it. */
  type HashFn = seq<byte> -> Digest

  datatype Option<+T> = None | Some(value: T)

  datatype Result<+T, +E> = Ok(value: T) | Err(error: E)

  function Zeros(n: nat): (s: seq<byte>)
    ensures |s| == n
  {
    seq(n, _ => 0)
  }

  function ZeroPage(): (p: Page)
  {
    Zeros(PAGE_SIZE)
  }

  /** `x` and `y` are two different messages with the same digest. */
  ghost predicate Collision(h: HashFn, x: seq<byte>, y: seq<byte>)
  {
    x != y && h(x) == h(y)
  }

  function Pow2(d: nat): (r: nat)
    ensures r > 0
  {
    if d == 0 then 1 else 2 * Pow2(d - 1)
  }

  lemma Pow2Byte(d: nat)
    ensures Pow2(d + 8) == 256 * Pow2(d)
  {
    assert Pow2(d + 2) == 4 * Pow2(d);
    assert Pow2(d + 4) == 4 * Pow2(d + 2);
    assert Pow2(d + 6) == 4 * Pow2(d + 4);
  }

  lemma Pow2Limits()
    ensures Pow2(32) == U32_LIMIT && Pow2(64) == U64_LIMIT
  {
    Pow2Byte(0);
    Pow2Byte(8);
    Pow2Byte(16);
    Pow2Byte(24);
    Pow2Byte(32);
    Pow2Byte(40);
    Pow2Byte(48);
    Pow2Byte(56);
  }

  /** The low `k` bits of `n`, as a byte. */
  function LowBits(n: nat, k: nat): byte
  {
    if k == 0 then 0 else (LowBits(n / 2, k - 1) << 1) | (if n % 2 == 1 then 1 else 0)
  }

  lemma ShiftIn(x: byte, bit: byte)
    requires x as nat < 128 && bit <= 1
    ensures ((x << 1) | bit) as nat == 2 * (x as nat) + bit as nat
  {
  }

  lemma {:induction false} LowBitsValue(n: nat, k: nat)
    requires k <= 8 && n < Pow2(k)
    ensures LowBits(n, k) as nat == n
  {
    if k > 0 {
      LowBitsValue(n / 2, k - 1);
      assert Pow2(7) == 128;
      Pow2Grows(k - 1, 7);
      ShiftIn(LowBits(n / 2, k - 1), if n % 2 == 1 then 1 else 0);
    }
  }

  lemma {:induction false} Pow2Grows(a: nat, b: nat)
    requires a <= b
    ensures Pow2(a) <= Pow2(b)
  {
    if a < b {
      Pow2Grows(a, b - 1);
    }
  }

  lemma MulAtLeast(m: nat, k: nat)
    requires k > 0
    ensures m * k >= m
  {
  }

  lemma DivUnique(n: nat, m: nat, q: nat, r: nat)
    requires n == m * q + r && r < m
    ensures n / m == q
  {
    var e := n / m;
    assert n == m * e + n % m;
    if e > q {
      assert m * e == m * q + m * (e - q);
      MulAtLeast(m, e - q);
    } else if e < q {
      assert m * q == m * e + m * (q - e);
      MulAtLeast(m, q - e);
    }
  }

  lemma DivDiv(n: nat, a: nat, b: nat)
    requires a > 0 && b > 0
    ensures a * b > 0 && n / a / b == n / (a * b)
  {
    var rest := n / a;
    DivDivParts(n, a, b, rest, n % a, rest / b, rest % b);
  }

  lemma DivDivParts(n: nat, a: nat, b: nat, rest: nat, low: nat, q: nat, r: nat)
    requires n == a * rest + low && low < a && rest == b * q + r && r < b
    ensures a * b > 0 && n / (a * b) == q
  {
    assert a * rest == a * (b * q) + a * r;
    assert (a * b) * q == a * (b * q);
    assert a * b == a * r + a * (b - r);
    MulAtLeast(a, b - r);
    DivUnique(n, a * b, q, a * r + low);
  }

  lemma ByteValue(n: nat)
    ensures LowBits(n % 256, 8) as nat == n % 256
  {
    Pow2Byte(0);
    LowBitsValue(n % 256, 8);
  }

  /** Little-endian encoding of `n` in `width` bytes, keeping the low bytes. */
  function LittleEndian(n: nat, width: nat): (s: seq<byte>)
    ensures |s| == width
    decreases width, n
  {
    if width == 0 then [] else [LowBits(n % 256, 8)] + LittleEndian(n / 256, width - 1)
  }

  /** Byte `i` of the encoding has weight `256^i`. */
  lemma {:induction false} LittleEndianByte(n: nat, width: nat, i: nat)
    requires i < width
    ensures LittleEndian(n, width)[i] as nat == n / Pow2(8 * i) % 256
    decreases width
  {
    if i == 0 {
      ByteValue(n);
      assert n / Pow2(0) == n;
    } else {
      LittleEndianByte(n / 256, width - 1, i - 1);
      Pow2Byte(8 * (i - 1));
      DivDiv(n, 256, Pow2(8 * (i - 1)));
      assert LittleEndian(n, width)[i] == LittleEndian(n / 256, width - 1)[i - 1];
    }
  }

  lemma {:induction false} LittleEndianInjective(a: nat, b: nat, width: nat)
    requires a < Pow2(8 * width) && b < Pow2(8 * width)
    requires LittleEndian(a, width) == LittleEndian(b, width)
    ensures a == b
  {
    if width > 0 {
      var x, y := LittleEndian(a, width), LittleEndian(b, width);
      assert x[0] == y[0] && x[1..] == y[1..];
      ByteValue(a);
      ByteValue(b);
      Pow2Byte(8 * (width - 1));
      LittleEndianInjective(a / 256, b / 256, width - 1);
    }
  }

  /** `u64::to_le_bytes`. */
  function LE64(n: u64): (s: seq<byte>)
    ensures |s| == 8
  {
    LittleEndian(n, 8)
  }

  lemma LE64Byte(n: u64, i: nat)
    requires i < 8
    ensures LE64(n)[i] as nat == n / Pow2(8 * i) % 256
  {
    LittleEndianByte(n, 8, i);
  }

  lemma LE64Injective(a: u64, b: u64)
    requires LE64(a) == LE64(b)
    ensures a == b
  {
    Pow2Limits();
    LittleEndianInjective(a, b, 8);
  }

  /** Concatenations whose left parts have equal length agree only part by part. */
  lemma ConcatInjective<T>(a: seq<T>, b: seq<T>, c: seq<T>, d: seq<T>)
    requires |a| == |c| && a + b == c + d
    ensures a == c && b == d
  {
    assert (a + b)[..|a|] == a && (c + d)[..|a|] == c;
    assert (a + b)[|a|..] == b && (c + d)[|a|..] == d;
  }
}
