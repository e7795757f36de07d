/** Button masks, sent with as few bytes as possible (lingo-simpleremote/simpleremote.go). */
module Buttons {
  import opened Bytes

  datatype Error = InvalidData

  /** The position of the highest bit that is set, counted from one. */
  function Len32(n: nat): nat {
    if n == 0 then 0 else 1 + Len32(n / 2)
  }

  function Pow2(k: nat): (p: nat)
    ensures p >= 1
  {
    if k == 0 then 1 else 2 * Pow2(k - 1)
  }

  function LittleEndian(n: uint32): (s: seq<byte>)
    ensures |s| == 4
  {
    [n % 0x100, n / 0x100 % 0x100, n / 0x1_0000 % 0x100, n / 0x100_0000]
  }

  function FromLittleEndian(s: seq<byte>): uint32
    requires |s| == 4
  {
    s[0] as int + 0x100 * s[1] as int + 0x1_0000 * s[2] as int + 0x100_0000 * s[3] as int
  }

  class ButtonStates {
    var buttonStates: uint32

    method MarshalBinary() returns (data: seq<byte>)
      ensures data == Marshal(buttonStates)
    {
      var mask := LittleEndian(buttonStates);
      var byteLen := (Len32(buttonStates) + 7) / 8;
      if byteLen == 0 {
        byteLen := 1;
      }
      ByteLength(buttonStates);
      data := mask[..byteLen];
    }

    method UnmarshalBinary(data: seq<byte>) returns (r: Result<(), Error>)
      modifies this
      ensures match Unmarshal(data)
              case Failure(e) => r == Failure(e) && buttonStates == old(buttonStates)
              case Success(n) => r == Success(()) && buttonStates == n
    {
      var mask := new byte[4](_ => 0);
      var copied := Min(4, |data|);
      for i := 0 to copied
        modifies mask
        invariant mask[..] == data[..i] + Zeros(4 - i)
      {
        mask[i] := data[i];
      }
      if copied in {1, 2, 3, 4} {
        buttonStates := FromLittleEndian(mask[..]);
        r := Success(());
      } else {
        r := Failure(InvalidData);
      }
    }
  }

  /** The bytes up to the highest one in use, and at least one. */
  function Marshal(n: uint32): seq<byte> {
    LittleEndian(n)[..if n < 0x100 then 1 else if n < 0x1_0000 then 2 else if n < 0x100_0000 then 3 else 4]
  }

  /** The first four bytes of the data, with zeros for those that are missing. */
  function Mask(data: seq<byte>): (mask: seq<byte>)
    ensures |mask| == 4
  {
    data[..Min(4, |data|)] + Zeros(4 - Min(4, |data|))
  }

  function Unmarshal(data: seq<byte>): Result<uint32, Error> {
    if data == [] then Failure(InvalidData) else Success(FromLittleEndian(Mask(data)))
  }

  lemma {:induction false} LenBound(n: nat, k: nat)
    ensures Len32(n) <= k <==> n < Pow2(k)
    decreases k
  {
    if k > 0 {
      LenBound(n / 2, k - 1);
    }
  }

  lemma ByteLength(n: uint32)
    ensures var len := (Len32(n) + 7) / 8;
            len == if n == 0 then 0
                   else if n < 0x100 then 1 else if n < 0x1_0000 then 2 else if n < 0x100_0000 then 3 else 4
  {
    assert Pow2(4) == 0x10 && Pow2(8) == 0x100 by {
      assert Pow2(2) == 4 && Pow2(4) == 4 * Pow2(2) && Pow2(6) == 4 * Pow2(4);
    }
    assert Pow2(12) == 0x1000 && Pow2(16) == 0x1_0000 by {
      assert Pow2(10) == 4 * Pow2(8) && Pow2(12) == 4 * Pow2(10) && Pow2(14) == 4 * Pow2(12);
    }
    assert Pow2(20) == 0x10_0000 && Pow2(24) == 0x100_0000 by {
      assert Pow2(18) == 4 * Pow2(16) && Pow2(20) == 4 * Pow2(18) && Pow2(22) == 4 * Pow2(20);
    }
    assert Pow2(28) == 0x1000_0000 && Pow2(32) == 0x1_0000_0000 by {
      assert Pow2(26) == 4 * Pow2(24) && Pow2(28) == 4 * Pow2(26) && Pow2(30) == 4 * Pow2(28);
    }
    LenBound(n, 0);
    LenBound(n, 8);
    LenBound(n, 16);
    LenBound(n, 24);
    LenBound(n, 32);
  }

  lemma LittleEndianRoundTrip(n: uint32)
    ensures FromLittleEndian(LittleEndian(n)) == n
  {
    var n1, n2 := n / 0x100, n / 0x1_0000;
    assert n == n % 0x100 + 0x100 * n1;
    assert n1 == n1 % 0x100 + 0x100 * n2;
    assert n2 == n2 % 0x100 + 0x100 * (n / 0x100_0000);
  }

  lemma FromLittleEndianRoundTrip(s: seq<byte>)
    requires |s| == 4
    ensures LittleEndian(FromLittleEndian(s)) == s
  {
    var m := FromLittleEndian(s);
    assert m / 0x100_0000 == s[3];
    assert m / 0x1_0000 == s[2] as int + 0x100 * s[3] as int;
    assert m / 0x100 == s[1] as int + 0x100 * s[2] as int + 0x1_0000 * s[3] as int;
    assert m / 0x1_0000 % 0x100 == s[2] && m / 0x100 % 0x100 == s[1] && m % 0x100 == s[0];
  }

  lemma MarshalShape(n: uint32)
    ensures 1 <= |Marshal(n)| <= 4 && Marshal(n) <= LittleEndian(n)
    ensures |Marshal(n)| > 1 ==> Marshal(n)[|Marshal(n)| - 1] != 0
    ensures forall i :: |Marshal(n)| <= i < 4 ==> LittleEndian(n)[i] == 0
  {
  }

  /** The data of which a mask is read: at least its own short form, and zeros from there to the fourth byte. */
  lemma UnmarshalExactly(n: uint32, data: seq<byte>)
    ensures Unmarshal(data) == Success(n)
       <==> Marshal(n) <= data && forall i :: |Marshal(n)| <= i < Min(4, |data|) ==> data[i] == 0
  {
    hide Marshal, LittleEndian, FromLittleEndian;
    var short, mask := Marshal(n), Mask(data);
    LittleEndianRoundTrip(n);
    FromLittleEndianRoundTrip(mask);
    MarshalShape(n);
    if mask == LittleEndian(n) && data != [] {
      assert forall i :: 0 <= i < Min(4, |data|) ==> data[i] == mask[i];
      assert short[|short| - 1] == LittleEndian(n)[|short| - 1];
      assert |short| <= |data|;
      assert data[..|short|] == short;
    }
    if short <= data && forall i :: |short| <= i < Min(4, |data|) ==> data[i] == 0 {
      assert forall i :: 0 <= i < |short| ==> mask[i] == short[i];
      assert mask == LittleEndian(n);
    }
  }

  /** One to four bytes, the last not zero unless it is the only one; they read back, and nothing shorter does. */
  lemma ShortestForm(n: uint32)
    ensures 1 <= |Marshal(n)| <= 4
    ensures Unmarshal(Marshal(n)) == Success(n)
    ensures |Marshal(n)| > 1 ==> Marshal(n)[|Marshal(n)| - 1] != 0
    ensures forall data :: Unmarshal(data) == Success(n) ==> |data| >= |Marshal(n)|
  {
    hide Marshal, Unmarshal;
    MarshalShape(n);
    UnmarshalExactly(n, Marshal(n));
    forall data | Unmarshal(data) == Success(n) ensures |data| >= |Marshal(n)| {
      UnmarshalExactly(n, data);
    }
  }

  /** Marshalling what was read gives the data back exactly when the data is itself a short form. */
  lemma CanonicalExactly(data: seq<byte>)
    requires data != []
    ensures Marshal(Unmarshal(data).value) == data
       <==> |data| <= 4 && (|data| > 1 ==> data[|data| - 1] != 0)
  {
    var n := Unmarshal(data).value;
    hide Marshal, Unmarshal;
    UnmarshalExactly(n, data);
    ShortestForm(n);
    if Marshal(n) != data && |data| <= 4 {
      assert data[|data| - 1] == 0;
    }
  }

  lemma DigitsOf(n: uint32)
    ensures forall i :: 0 <= i < 4 ==> LittleEndian(n)[i] == n / Range(i) % 0x100
  {
    assert Range(1) == 0x100 && Range(2) == 0x1_0000 by {
      assert Range(1) == 0x100 * Range(0) && Range(2) == 0x100 * Range(1);
    }
    assert Range(3) == 0x100_0000 by {
      assert Range(3) == 0x100 * Range(2);
    }
  }

  /** On the wire the byte for bits 0 to 7 comes first, then 8 to 15, and so on; the bytes left out are zero. */
  lemma MaskOnTheWire(n: uint32)
    ensures forall i :: 0 <= i < 4 ==>
              n / Range(i) % 0x100 == if i < |Marshal(n)| then Marshal(n)[i] else 0
  {
    hide LittleEndian, Marshal, Range;
    DigitsOf(n);
    MarshalShape(n);
    var s, mask := Marshal(n), LittleEndian(n);
    forall i | 0 <= i < 4
      ensures n / Range(i) % 0x100 == if i < |s| then s[i] else 0
    {
      assert mask[i] == n / Range(i) % 0x100;
    }
  }

  /** And so it is read: byte `i` of the data gives bits `8 * i` to `8 * i + 7`, and no byte gives zeros. */
  lemma MaskReads(data: seq<byte>)
    requires data != []
    ensures Unmarshal(data).Success?
    ensures forall i :: 0 <= i < 4 ==>
              Unmarshal(data).value / Range(i) % 0x100 == if i < |data| then data[i] else 0
  {
    hide LittleEndian, FromLittleEndian, Range;
    var n, mask := Unmarshal(data).value, Mask(data);
    FromLittleEndianRoundTrip(mask);
    DigitsOf(n);
    forall i | 0 <= i < 4
      ensures n / Range(i) % 0x100 == if i < |data| then data[i] else 0
    {
      assert mask[i] == n / Range(i) % 0x100;
    }
  }
}
