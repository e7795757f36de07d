/** The packet checksum (crc.go): the two's complement of the 8-bit sum of the bytes. */
module Checksums {
  import opened Bytes

  /** The sum of the bytes as a natural number, before any wrap-around. */
  function Sum(p: seq<byte>): nat {
    if p == [] then 0 else Sum(p[..|p| - 1]) + p[|p| - 1]
  }

  lemma {:induction false} SumConcat(p: seq<byte>, q: seq<byte>)
    ensures Sum(p + q) == Sum(p) + Sum(q)
  {
    if q == [] {
      assert p + q == p;
    } else {
      SumConcat(p, q[..|q| - 1]);
      assert (p + q)[..|p + q| - 1] == p + q[..|q| - 1];
    }
  }

  /** The value `-crc` of an 8-bit accumulator that has taken in `p`. */
  function ChecksumOf(p: seq<byte>): byte {
    (0x100 - Sum(p) % 0x100) % 0x100
  }

  /** Wrapping at each addition is the same as wrapping once at the end. */
  lemma WrapLater(total: nat, b: byte)
    ensures (total % 0x100 + b) % 0x100 == (total + b) % 0x100
  {
  }

  /** Appending the checksum is the only way to make the 8-bit sum zero. */
  lemma ChecksumCloses(p: seq<byte>, c: byte)
    ensures ChecksumOf(p + [c]) == 0 <==> c == ChecksumOf(p)
  {
    SumConcat(p, [c]);
    assert Sum([c]) == c;
    WrapLater(Sum(p), c);
    var r := Sum(p) % 0x100;
    assert (r + c) % 0x100 == if r + c < 0x100 then r + c else r + c - 0x100;
  }

  method Checksum(p: seq<byte>) returns (sum: byte)
    ensures sum == ChecksumOf(p)
  {
    var crc: byte := 0;
    for i := 0 to |p|
      invariant crc == Sum(p[..i]) % 0x100
    {
      assert p[..i + 1][..i] == p[..i];
      WrapLater(Sum(p[..i]), p[i]);
      crc := (crc + p[i]) % 0x100;
    }
    assert p[..|p|] == p;
    sum := (0x100 - crc) % 0x100;
  }

  /** The incremental form, a hash whose state is the running 8-bit sum. */
  class Crc8 {
    var crc: byte
    ghost var Written: seq<byte>  // everything written since the last reset

    ghost predicate Valid()
      reads this
    {
      crc == Sum(Written) % 0x100
    }

    constructor ()
      ensures Valid() && Written == []
    {
      crc, Written := 0, [];
    }

    method Write(p: seq<byte>) returns (n: nat)
      requires Valid()
      modifies this
      ensures Valid() && Written == old(Written) + p && n == |p|
    {
      SumConcat(Written, p);
      for i := 0 to |p|
        invariant crc == (Sum(Written) + Sum(p[..i])) % 0x100
        invariant Written == old(Written)
      {
        assert p[..i + 1][..i] == p[..i];
        WrapLater(Sum(Written) + Sum(p[..i]), p[i]);
        crc := (crc + p[i]) % 0x100;
      }
      assert p[..|p|] == p;
      Written := Written + p;
      n := |p|;
    }

    /** However the input was cut into writes, the digest is the checksum of all of it. */
    method Sum8() returns (sum: byte)
      requires Valid()
      ensures sum == ChecksumOf(Written)
    {
      sum := (0x100 - crc) % 0x100;
    }

    method Reset()
      modifies this
      ensures Valid() && Written == []
    {
      crc, Written := 0, [];
    }
  }
}
