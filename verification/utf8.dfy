/** UTF-8 as RFC 3629 defines it, and the clamping of strings to a number of bytes (util.go). */
module Utf8 {
  import opened Bytes

  // ---------------------------------------------------------------- section 4 of RFC 3629: the byte patterns

  predicate In(b: byte, lo: byte, hi: byte) {
    lo <= b <= hi
  }

  predicate Tails(s: seq<byte>) {
    forall i :: 0 <= i < |s| ==> In(s[i], 0x80, 0xBF)
  }

  /** How many bytes the first character takes, or zero where no character starts. */
  function RuneLen(s: seq<byte>): (n: nat)
    ensures n <= 4 && n <= |s|
  {
    if s == [] then 0
    else if s[0] <= 0x7F then 1
    else if |s| >= 2 && In(s[0], 0xC2, 0xDF) && Tails(s[1..2]) then 2
    else if |s| >= 3 && s[0] == 0xE0 && In(s[1], 0xA0, 0xBF) && Tails(s[2..3]) then 3
    else if |s| >= 3 && (In(s[0], 0xE1, 0xEC) || In(s[0], 0xEE, 0xEF)) && Tails(s[1..3]) then 3
    else if |s| >= 3 && s[0] == 0xED && In(s[1], 0x80, 0x9F) && Tails(s[2..3]) then 3
    else if |s| >= 4 && s[0] == 0xF0 && In(s[1], 0x90, 0xBF) && Tails(s[2..4]) then 4
    else if |s| >= 4 && In(s[0], 0xF1, 0xF3) && Tails(s[1..4]) then 4
    else if |s| >= 4 && s[0] == 0xF4 && In(s[1], 0x80, 0x8F) && Tails(s[2..4]) then 4
    else 0
  }

  predicate Valid(s: seq<byte>) {
    s == [] || (RuneLen(s) > 0 && Valid(s[RuneLen(s)..]))
  }

  // ---------------------------------------------------------------- section 3 of RFC 3629: the encoding

  type scalar = c: int | 0 <= c <= 0x10FFFF && !(0xD800 <= c <= 0xDFFF)

  function Encode(c: scalar): seq<byte> {
    if c < 0x80 then [c]
    else if c < 0x800 then [0xC0 + c / 0x40, 0x80 + c % 0x40]
    else if c < 0x1_0000 then [0xE0 + c / 0x1000, 0x80 + c / 0x40 % 0x40, 0x80 + c % 0x40]
    else [0xF0 + c / 0x4_0000, 0x80 + c / 0x1000 % 0x40, 0x80 + c / 0x40 % 0x40, 0x80 + c % 0x40]
  }

  function EncodeAll(cs: seq<scalar>): seq<byte> {
    if cs == [] then [] else Encode(cs[0]) + EncodeAll(cs[1..])
  }

  lemma EncodedRune(c: scalar, rest: seq<byte>)
    ensures RuneLen(Encode(c) + rest) == |Encode(c)|
  {
    var s := Encode(c) + rest;
    assert forall i :: 0 <= i < |Encode(c)| ==> s[i] == Encode(c)[i];
  }

  lemma DecodeTwo(a: nat, b: nat)
    requires a < 0x20 && b < 0x40
    ensures var c := a * 0x40 + b; c / 0x40 == a && c % 0x40 == b
  {
  }

  lemma DecodeThree(a: nat, b: nat, d: nat)
    requires a < 0x10 && b < 0x40 && d < 0x40
    ensures var c := (a * 0x40 + b) * 0x40 + d; c / 0x1000 == a && c / 0x40 % 0x40 == b && c % 0x40 == d
  {
    var c := (a * 0x40 + b) * 0x40 + d;
    assert c / 0x40 == a * 0x40 + b;
  }

  lemma DecodeFour(a: nat, b: nat, d: nat, e: nat)
    requires a < 8 && b < 0x40 && d < 0x40 && e < 0x40
    ensures var c := ((a * 0x40 + b) * 0x40 + d) * 0x40 + e;
            c / 0x4_0000 == a && c / 0x1000 % 0x40 == b && c / 0x40 % 0x40 == d && c % 0x40 == e
  {
    var c := ((a * 0x40 + b) * 0x40 + d) * 0x40 + e;
    assert c / 0x40 == (a * 0x40 + b) * 0x40 + d;
    assert c / 0x1000 == a * 0x40 + b;
  }

  lemma DecodeRune(s: seq<byte>) returns (c: scalar)
    requires RuneLen(s) > 0
    ensures Encode(c) == s[..RuneLen(s)]
  {
    match RuneLen(s)
    case 1 =>
      c := s[0];
    case 2 =>
      var a, b := s[0] as int - 0xC0, s[1] as int - 0x80;
      DecodeTwo(a, b);
      c := a * 0x40 + b;
    case 3 =>
      var a, b, d := s[0] as int - 0xE0, s[1] as int - 0x80, s[2] as int - 0x80;
      DecodeThree(a, b, d);
      c := (a * 0x40 + b) * 0x40 + d;
    case _ =>
      var a, b, d, e := s[0] as int - 0xF0, s[1] as int - 0x80, s[2] as int - 0x80, s[3] as int - 0x80;
      DecodeFour(a, b, d, e);
      c := ((a * 0x40 + b) * 0x40 + d) * 0x40 + e;
  }

  lemma {:induction false} EncodingsValid(cs: seq<scalar>)
    ensures Valid(EncodeAll(cs))
  {
    if cs != [] {
      EncodedRune(cs[0], EncodeAll(cs[1..]));
      EncodingsValid(cs[1..]);
    }
  }

  lemma EncodeAllCons(c: scalar, later: seq<scalar>)
    ensures EncodeAll([c] + later) == Encode(c) + EncodeAll(later)
  {
    assert ([c] + later)[1..] == later;
  }

  lemma FirstRune(s: seq<byte>)
    requires Valid(s) && s != []
    ensures 0 < RuneLen(s) && Valid(s[RuneLen(s)..]) && s == s[..RuneLen(s)] + s[RuneLen(s)..]
  {
  }

  lemma {:induction false} DecodeAll(s: seq<byte>) returns (cs: seq<scalar>)
    requires Valid(s)
    ensures EncodeAll(cs) == s
    decreases |s|
  {
    if s == [] {
      cs := [];
    } else {
      hide RuneLen, Encode, EncodeAll, Valid;
      FirstRune(s);
      var c := DecodeRune(s);
      var later := DecodeAll(s[RuneLen(s)..]);
      cs := [c] + later;
      EncodeAllCons(c, later);
    }
  }

  /** The byte patterns describe exactly the encodings of sequences of code points. */
  lemma ValidIsEncoding(s: seq<byte>)
    ensures Valid(s) <==> exists cs :: EncodeAll(cs) == s
  {
    if Valid(s) {
      var cs := DecodeAll(s);
      assert EncodeAll(cs) == s;
    }
    if cs :| EncodeAll(cs) == s {
      EncodingsValid(cs);
    }
  }

  // ---------------------------------------------------------------- prefixes

  /** A cut after `k` bytes falls between two characters. */
  predicate Boundary(s: seq<byte>, k: nat)
    decreases k
  {
    k == 0 || (0 < RuneLen(s) <= k && Boundary(s[RuneLen(s)..], k - RuneLen(s)))
  }

  lemma RuneLenOfPrefix(s: seq<byte>, k: nat)
    requires k <= |s|
    ensures RuneLen(s[..k]) == if RuneLen(s) <= k then RuneLen(s) else 0
  {
    var p := s[..k];
    assert forall i :: 0 <= i < k ==> p[i] == s[i];
    assert forall i, j :: 0 <= i <= j <= k ==> p[i..j] == s[i..j];
  }

  lemma {:induction false} ValidPrefixExactly(s: seq<byte>, k: nat)
    requires k <= |s|
    ensures Valid(s[..k]) <==> Boundary(s, k)
    decreases k
  {
    RuneLenOfPrefix(s, k);
    var n := RuneLen(s);
    if 0 < n <= k {
      assert s[..k][n..] == s[n..][..k - n];
      ValidPrefixExactly(s[n..], k - n);
    }
  }

  lemma {:induction false} BoundaryNear(s: seq<byte>, max: nat) returns (k: nat)
    requires Valid(s) && max <= |s|
    ensures max - 3 <= k <= max && Boundary(s, k)
    decreases max
  {
    var n := RuneLen(s);
    if n <= max && s != [] {
      var later := BoundaryNear(s[n..], max - n);
      k := n + later;
    } else {
      k := 0;
    }
  }

  // ---------------------------------------------------------------- ClampString

  /** The longest valid prefix of at most `max` bytes. */
  predicate LongestValidPrefix(r: seq<byte>, s: seq<byte>, max: int) {
    r <= s && |r| <= max && Valid(r) && forall k :: |r| < k <= Min(max, |s|) ==> !Valid(s[..k])
  }

  /** None where slicing with a negative bound panics. */
  method ClampString(s: seq<byte>, maxBytes: int) returns (r: Option<seq<byte>>)
    ensures |s| <= maxBytes ==> r == Some(s)
    ensures maxBytes < 0 ==> r == None
    ensures 0 <= maxBytes < |s| ==> r.Some? && LongestValidPrefix(r.value, s, maxBytes)
  {
    if |s| <= maxBytes {
      return Some(s);
    }
    if maxBytes < 0 {
      return None;
    }
    var b := s[..maxBytes];
    while !Valid(b)
      invariant |b| <= maxBytes && b == s[..|b|]
      invariant forall k :: |b| < k <= maxBytes ==> !Valid(s[..k])
      decreases |b|
    {
      b := b[..|b| - 1];
    }
    r := Some(b);
  }

  /** There is only one such prefix, so this is a full description of the result. */
  lemma LongestIsUnique(r: seq<byte>, r': seq<byte>, s: seq<byte>, max: nat)
    requires LongestValidPrefix(r, s, max) && LongestValidPrefix(r', s, max)
    ensures r == r'
  {
    assert s[..|r|] == r && s[..|r'|] == r';
  }

  /** Of a valid string, clamping keeps whole characters, and drops at most three bytes below the limit. */
  lemma ClampKeepsCharacters(r: seq<byte>, s: seq<byte>, max: nat)
    requires Valid(s) && max < |s| && LongestValidPrefix(r, s, max)
    ensures Boundary(s, |r|) && max - 3 <= |r|
    ensures forall k :: |r| < k <= max ==> !Boundary(s, k)
  {
    assert s[..|r|] == r;
    ValidPrefixExactly(s, |r|);
    var k := BoundaryNear(s, max);
    ValidPrefixExactly(s, k);
    forall k | |r| < k <= max ensures !Boundary(s, k) {
      ValidPrefixExactly(s, k);
    }
  }

  /** The bound is sharp: a character of four bytes can cost three. */
  lemma ThreeBytesLost()
    ensures Valid(Encode(0x1_F600)) && LongestValidPrefix([], Encode(0x1_F600), 3)
  {
    var s := Encode(0x1_F600);
    EncodingsValid([0x1_F600]);
    assert EncodeAll([0x1_F600]) == s + EncodeAll([]);
    RuneLenOfPrefix(s, 1);
    RuneLenOfPrefix(s, 2);
    RuneLenOfPrefix(s, 3);
    EncodedRune(0x1_F600, []);
    assert s + [] == s;
  }
}
