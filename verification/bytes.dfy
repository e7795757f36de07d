/** Bytes and the big-endian integers that every layer of the protocol is written in. */
module Bytes {

  type byte = b: int | 0 <= b < 0x100
  type uint16 = n: int | 0 <= n < 0x1_0000
  type uint32 = n: int | 0 <= n < 0x1_0000_0000
  type uint64 = n: int | 0 <= n < 0x1_0000_0000_0000_0000

  datatype Option<+T> = None | Some(value: T)

  function Or<T>(o: Option<T>, default: T): T {
    if o.Some? then o.value else default
  }

  datatype Result<+T, +E> = Success(value: T) | Failure(error: E)

  function Zeros(n: nat): (z: seq<byte>)
    ensures |z| == n
  {
    seq(n, _ => 0)
  }

  function Min(a: int, b: int): int {
    if a < b then a else b
  }

  /** bytes.IndexByte, with the length of `s` standing for -1. */
  function IndexByte(s: seq<byte>, b: byte): (i: nat)
    ensures i <= |s|
  {
    if s == [] || s[0] == b then 0 else 1 + IndexByte(s[1..], b)
  }

  lemma AppendAssociative<T>(a: seq<T>, b: seq<T>, c: seq<T>)
    ensures (a + b) + c == a + (b + c)
  {
  }

  /** The number of values that `width` bytes can hold. */
  function Range(width: nat): (r: nat)
    ensures r >= 1
  {
    if width == 0 then 1 else 0x100 * Range(width - 1)
  }

  /** The `width` low-order bytes of `n`, most significant byte first. */
  function BigEndian(n: nat, width: nat): (s: seq<byte>)
    ensures |s| == width
  {
    if width == 0 then [] else BigEndian(n / 0x100, width - 1) + [n % 0x100]
  }

  function FromBigEndian(s: seq<byte>): nat {
    if s == [] then 0 else FromBigEndian(s[..|s| - 1]) * 0x100 + s[|s| - 1]
  }

  /** Two, four and eight bytes written out. */
  lemma BigEndianTwo(n: nat)
    ensures BigEndian(n, 2) == [n / 0x100 % 0x100, n % 0x100]
  {
    assert BigEndian(n / 0x100, 1) == BigEndian(n / 0x100 / 0x100, 0) + [n / 0x100 % 0x100];
  }

  lemma BigEndianFour(n: nat)
    ensures BigEndian(n, 4) == [n / 0x100_0000 % 0x100, n / 0x1_0000 % 0x100, n / 0x100 % 0x100, n % 0x100]
  {
    BigEndianTwo(n / 0x1_0000);
    assert n / 0x100 / 0x100 == n / 0x1_0000 && n / 0x1_0000 / 0x100 == n / 0x100_0000;
    assert BigEndian(n, 4) == BigEndian(n / 0x100, 3) + [n % 0x100];
    assert BigEndian(n / 0x100, 3) == BigEndian(n / 0x100 / 0x100, 2) + [n / 0x100 % 0x100];
  }

  /** The last bytes of a longer number are those of the number itself. */
  lemma BigEndianTail(n: nat, width: nat)
    ensures BigEndian(n, width + 4) == BigEndian(n / 0x1_0000_0000, width) + BigEndian(n, 4)
  {
    BigEndianFour(n);
    assert n / 0x100 / 0x100 / 0x100 / 0x100 == n / 0x1_0000_0000;
    assert n / 0x100 / 0x100 == n / 0x1_0000 && n / 0x1_0000 / 0x100 == n / 0x100_0000;
    var front := BigEndian(n / 0x1_0000_0000, width);
    assert BigEndian(n / 0x100_0000, width + 1) == front + [n / 0x100_0000 % 0x100];
    assert BigEndian(n / 0x1_0000, width + 2) == BigEndian(n / 0x100_0000, width + 1) + [n / 0x1_0000 % 0x100];
    assert BigEndian(n / 0x100, width + 3) == BigEndian(n / 0x1_0000, width + 2) + [n / 0x100 % 0x100];
  }

  /** The number that four bytes stand for, the first one the highest. */
  function Word(s: seq<byte>): uint32
    requires |s| == 4
  {
    0x100_0000 * s[0] as int + 0x1_0000 * s[1] as int + 0x100 * s[2] as int + s[3] as int
  }

  lemma FromBigEndianFour(s: seq<byte>)
    requires |s| >= 4
    ensures FromBigEndian(s) == 0x1_0000_0000 * FromBigEndian(s[..|s| - 4]) + Word(s[|s| - 4..])
  {
    var n := |s|;
    assert s[..n - 1][..n - 2] == s[..n - 2] && s[..n - 2][..n - 3] == s[..n - 3] && s[..n - 3][..n - 4] == s[..n - 4];
    assert FromBigEndian(s) == FromBigEndian(s[..n - 1]) * 0x100 + s[n - 1];
    assert FromBigEndian(s[..n - 1]) == FromBigEndian(s[..n - 2]) * 0x100 + s[n - 2];
    assert FromBigEndian(s[..n - 2]) == FromBigEndian(s[..n - 3]) * 0x100 + s[n - 3];
    assert FromBigEndian(s[..n - 3]) == FromBigEndian(s[..n - 4]) * 0x100 + s[n - 4];
  }

  lemma FromBigEndianTwo(s: seq<byte>)
    requires |s| == 2
    ensures FromBigEndian(s) == 0x100 * s[0] as int + s[1] as int
  {
    assert s[..1] == [s[0]];
    assert FromBigEndian([s[0]]) == s[0];
  }

  lemma {:induction false} BigEndianRoundTrip(n: nat, width: nat)
    requires n < Range(width)
    ensures FromBigEndian(BigEndian(n, width)) == n
  {
    if width > 0 {
      BigEndianRoundTrip(n / 0x100, width - 1);
      assert BigEndian(n, width)[..width - 1] == BigEndian(n / 0x100, width - 1);
    }
  }

  lemma {:induction false} FromBigEndianRoundTrip(s: seq<byte>)
    ensures FromBigEndian(s) < Range(|s|)
    ensures BigEndian(FromBigEndian(s), |s|) == s
  {
    if s != [] {
      FromBigEndianRoundTrip(s[..|s| - 1]);
    }
  }
}
