/** Token lists and acknowledgements byte by byte (lingo-general/general.go, lingo-general/handler.go). */
module IdpsWire {
  import opened Bytes
  import opened Idps
  import opened IdpsLaws

  /** Four bytes of a number, the highest first. */
  function Four(n: nat): seq<byte> {
    [n / 0x100_0000 % 0x100, n / 0x1_0000 % 0x100, n / 0x100 % 0x100, n % 0x100]
  }

  // ---------------------------------------------------------------- tokens

  /** The bytes of a token behind its id. */
  function Body(t: Token): seq<byte>
    requires t.ScreenInfo? ==> |t.sizes| == 6
  {
    match t
    case Identify(lingoes, options, id) => [|lingoes| % 0x100] + lingoes + Four(options) + Four(id)
    case AccCaps(mask) => Four(mask / 0x1_0000_0000) + Four(mask)
    case IPodPreference(c, s, r) => [c, s, r]
    case BundleSeedIDPref(seed) => seed
    case ScreenInfo(z, features, gamma) =>
      [z[0] / 0x100, z[0] % 0x100, z[1] / 0x100, z[1] % 0x100, z[2] / 0x100, z[2] % 0x100,
       z[3] / 0x100, z[3] % 0x100, z[4] / 0x100, z[4] % 0x100, z[5] / 0x100, z[5] % 0x100, features, gamma]
    case EAProtocolMetadata(i, m) => [i, m]
    case MicrophoneCaps(mask) => Four(mask)
    case Raw(bytes) => bytes
    case AccInfo(_, _) => []
    case EAProtocol(_, _) => []
  }

  lemma {:induction false} SixShorts(z: seq<uint16>)
    requires |z| == 6
    ensures Shorts(z) == [z[0] / 0x100, z[0] % 0x100, z[1] / 0x100, z[1] % 0x100, z[2] / 0x100, z[2] % 0x100,
                          z[3] / 0x100, z[3] % 0x100, z[4] / 0x100, z[4] % 0x100, z[5] / 0x100, z[5] % 0x100]
  {
    ShortsCons(z);
    ShortsCons(z[1..]);
    ShortsCons(z[2..]);
    ShortsCons(z[3..]);
    ShortsCons(z[4..]);
    ShortsCons(z[5..]);
    assert z[1..][1..] == z[2..] && z[2..][1..] == z[3..] && z[3..][1..] == z[4..] && z[4..][1..] == z[5..];
    hide Shorts;
    assert z[5..][1..] == [];
    NoShorts();
  }

  lemma ShortBytes(n: uint16)
    ensures BigEndian(n, 2) == [n / 0x100, n % 0x100]
  {
    hide BigEndian;
    BigEndianTwo(n);
    assert n / 0x100 < 0x100;
  }

  lemma ShortsCons(z: seq<uint16>)
    requires z != []
    ensures Shorts(z) == [z[0] / 0x100, z[0] % 0x100] + Shorts(z[1..])
  {
    hide BigEndian;
    ShortBytes(z[0]);
  }

  lemma NoShorts()
    ensures Shorts([]) == []
  {
  }

  lemma FourBytes(n: nat)
    ensures BigEndian(n, 4) == Four(n)
  {
    BigEndianFour(n);
  }

  /** A token that has a binary form: type and subtype, and then its fields in order. */
  lemma {:induction false} TokenOnTheWire(v: FIDTokenValue)
    requires Layout(v) && HasForm(v)
    ensures FormatToken(v) == Success([v.id.fidType, v.id.fidSubtype] + Body(v.token))
  {
    match v.token
    case Identify(_, options, id) =>
      FourBytes(options);
      FourBytes(id);
    case AccCaps(mask) =>
      BigEndianTail(mask, 4);
      FourBytes(mask / 0x1_0000_0000);
      FourBytes(mask);
    case ScreenInfo(sizes, features, gamma) =>
      SixShorts(sizes);
      assert Shorts(sizes) + [features, gamma] == Body(v.token);
    case MicrophoneCaps(mask) =>
      FourBytes(mask);
    case _ =>
  }

  // ---------------------------------------------------------------- lists

  /** Each item behind its length, as far as a byte holds it. */
  function Entries(items: seq<seq<byte>>): seq<byte> {
    if items == [] then [] else [|items[0]| % 0x100] + items[0] + Entries(items[1..])
  }

  lemma {:induction false} JoinIsEntries<T>(values: seq<T>, format: T -> Result<seq<byte>, FormatError>,
                                            items: seq<seq<byte>>)
    requires |items| == |values| && forall i :: 0 <= i < |values| ==> format(values[i]) == Success(items[i])
    ensures Join(values, format) == Success(Entries(items))
    decreases values
  {
    if values != [] {
      var others, rest := values[1..], items[1..];
      assert forall i :: 0 <= i < |others| ==> others[i] == values[i + 1] && rest[i] == items[i + 1];
      JoinIsEntries(others, format, rest);
    }
  }

  function TokenItems(values: seq<FIDTokenValue>): (items: seq<seq<byte>>)
    requires forall i :: 0 <= i < |values| ==> Layout(values[i])
    ensures |items| == |values|
  {
    seq(|values|, i requires 0 <= i < |values| && Layout(values[i]) =>
      [values[i].id.fidType, values[i].id.fidSubtype] + Body(values[i].token))
  }

  /** A token list: the count, and every token behind its length. */
  lemma {:induction false} TokensOnTheWire(values: seq<FIDTokenValue>)
    requires forall i :: 0 <= i < |values| ==> Layout(values[i]) && HasForm(values[i])
    ensures MarshalList(values, FormatToken) == Success([|values| % 0x100] + Entries(TokenItems(values)))
  {
    forall i | 0 <= i < |values| ensures FormatToken(values[i]) == Success(TokenItems(values)[i]) {
      TokenOnTheWire(values[i]);
    }
    JoinIsEntries(values, FormatToken, TokenItems(values));
  }

  function AckItems(values: seq<FIDTokenValue>): (items: seq<seq<byte>>)
    ensures |items| == |values|
  {
    seq(|values|, i requires 0 <= i < |values| =>
      [values[i].id.fidType, values[i].id.fidSubtype, 0x00] + Echo(values[i].token))
  }

  /** The reply to a list without unknown kinds: the count, and per token length, id, status 0 and what it repeats. */
  lemma {:induction false} AcksOnTheWire(values: seq<FIDTokenValue>, acks: seq<FIDTokenValueACK>)
    requires |acks| == |values| && forall i :: 0 <= i < |values| ==> Acknowledges(acks[i], values[i])
    requires forall i :: 0 <= i < |values| ==> !values[i].token.Raw?
    ensures MarshalList(acks, FormatAck) == Success([|values| % 0x100] + Entries(AckItems(values)))
  {
    var items := AckItems(values);
    forall i | 0 <= i < |acks| ensures FormatAck(acks[i]) == Success(items[i]) {
      var id := values[i].id;
      AppendAssociative([id.fidType, id.fidSubtype], [0x00], Echo(values[i].token));
      assert [id.fidType, id.fidSubtype] + [0x00] == [id.fidType, id.fidSubtype, 0x00];
    }
    JoinIsEntries(acks, FormatAck, items);
  }

  // ---------------------------------------------------------------- reading lists

  /** Where the items start, and where the last ends: each takes its length byte and what that says, or what is left. */
  predicate Laid(data: seq<byte>, starts: seq<nat>) {
    |starts| >= 1 && (forall i :: 0 <= i < |starts| ==> starts[i] <= |data|) &&
    forall i :: 0 <= i < |starts| - 1 ==>
      starts[i] < |data| && starts[i + 1] == Min(starts[i] + 1 + data[starts[i]] as int, |data|)
  }

  predicate Reads<T(==)>(data: seq<byte>, starts: seq<nat>, values: seq<T>, parse: seq<byte> -> Result<T, FormatError>)
    requires Laid(data, starts)
  {
    |starts| == |values| + 1 &&
    forall i :: 0 <= i < |values| ==> parse(data[starts[i] + 1..starts[i + 1]]) == Success(values[i])
  }

  lemma SplitAt<T>(data: seq<byte>, pos: nat, count: nat, parse: seq<byte> -> Result<T, FormatError>)
    requires pos < |data| && count >= 1
    ensures var next := Min(pos + 1 + data[pos] as int, |data|);
            Split(data[pos..], count, parse)
            == match parse(data[pos + 1..next])
               case Failure(e) => Failure(e)
               case Success(x) => Resumed([x], Split(data[next..], count - 1, parse))
  {
    hide Split;
    var s := data[pos..];
    var n := Min(s[0], |s| - 1);
    SplitStep(s, count, parse);
    assert s[1 + n..] == data[pos + 1 + n..] && s[1..1 + n] == data[pos + 1..pos + 1 + n];
  }

  lemma {:induction false} LaidCons(data: seq<byte>, pos: nat, later: seq<nat>)
    requires Laid(data, later) && pos < |data| && later[0] == Min(pos + 1 + data[pos] as int, |data|)
    ensures Laid(data, [pos] + later)
  {
    var starts := [pos] + later;
    forall i | 0 <= i < |starts| - 1
      ensures starts[i] < |data| && starts[i + 1] == Min(starts[i] + 1 + data[starts[i]] as int, |data|)
    {
      if i > 0 {
        assert starts[i] == later[i - 1] && starts[i + 1] == later[i - 1 + 1];
      }
    }
  }

  lemma {:induction false} LaysCons<T>(data: seq<byte>, pos: nat, later: seq<nat>, x: T, values: seq<T>,
                                       parse: seq<byte> -> Result<T, FormatError>)
    requires Laid(data, later) && Reads(data, later, values, parse)
    requires pos < |data| && later[0] == Min(pos + 1 + data[pos] as int, |data|)
    requires parse(data[pos + 1..later[0]]) == Success(x)
    ensures Laid(data, [pos] + later) && Reads(data, [pos] + later, [x] + values, parse)
  {
    LaidCons(data, pos, later);
    var starts, all := [pos] + later, [x] + values;
    forall i | 0 <= i < |all|
      ensures parse(data[starts[i] + 1..starts[i + 1]]) == Success(all[i])
    {
      if i > 0 {
        assert starts[i] == later[i - 1] && starts[i + 1] == later[i - 1 + 1] && all[i] == values[i - 1];
      }
    }
  }

  lemma {:induction false} SplitLays<T>(data: seq<byte>, pos: nat, count: nat,
                                        parse: seq<byte> -> Result<T, FormatError>)
    returns (starts: seq<nat>)
    requires pos <= |data| && Split(data[pos..], count, parse).Success?
    ensures Laid(data, starts) && starts[0] == pos && |starts| == count + 1
    ensures Reads(data, starts, Split(data[pos..], count, parse).value, parse)
    decreases count
  {
    hide Split;
    if count == 0 {
      SplitNothing(data[pos..], parse);
      starts := [pos];
    } else {
      hide Laid, Reads;
      SplitShort(count, parse);
      var left := data[pos..];
      assert left != [];
      SplitAt(data, pos, count, parse);
      var next := Min(pos + 1 + data[pos] as int, |data|);
      var later := SplitLays(data, next, count - 1, parse);
      LaysCons(data, pos, later, parse(data[pos + 1..next]).value, Split(data[next..], count - 1, parse).value, parse);
      starts := [pos] + later;
    }
  }

  lemma {:induction false} LaidTail<T>(data: seq<byte>, starts: seq<nat>, values: seq<T>,
                                       parse: seq<byte> -> Result<T, FormatError>)
    requires Laid(data, starts) && Reads(data, starts, values, parse) && values != []
    ensures starts[0] < |data| && starts[1] == Min(starts[0] + 1 + data[starts[0]] as int, |data|)
    ensures parse(data[starts[0] + 1..starts[1]]) == Success(values[0])
    ensures Laid(data, starts[1..]) && Reads(data, starts[1..], values[1..], parse)
  {
    var later, others := starts[1..], values[1..];
    assert forall i :: 0 <= i < |later| ==> later[i] == starts[i + 1];
    assert forall i :: 0 <= i < |others| ==> others[i] == values[i + 1];
  }

  lemma {:induction false} LaidSplits<T>(data: seq<byte>, starts: seq<nat>, values: seq<T>,
                                         parse: seq<byte> -> Result<T, FormatError>)
    requires Laid(data, starts) && Reads(data, starts, values, parse)
    ensures Split(data[starts[0]..], |values|, parse) == Success(values)
    decreases values
  {
    hide Split;
    if values == [] {
      SplitNothing(data[starts[0]..], parse);
    } else {
      LaidTail(data, starts, values, parse);
      hide Laid, Reads;
      SplitAt(data, starts[0], |values|, parse);
      LaidSplits(data, starts[1..], values[1..], parse);
      assert values == [values[0]] + values[1..];
    }
  }

  /** A list reads as these values exactly when they are as many as its count says and each reads from its own bytes. */
  lemma {:induction false} ListReadsExactly<T>(data: seq<byte>, values: seq<T>,
                                               parse: seq<byte> -> Result<T, FormatError>)
    ensures UnmarshalList(data, parse) == Success(values)
       <==> data != [] && |values| == data[0] &&
            exists starts :: Laid(data, starts) && starts[0] == 1 && Reads(data, starts, values, parse)
  {
    if UnmarshalList(data, parse) == Success(values) {
      SplitCount(data[1..], data[0], parse);
      var starts := SplitLays(data, 1, data[0], parse);
    }
    if data != [] && |values| == data[0] {
      if starts :| Laid(data, starts) && starts[0] == 1 && Reads(data, starts, values, parse) {
        LaidSplits(data, starts, values, parse);
      }
    }
  }

  // ---------------------------------------------------------------- reading tokens

  /** The word at `i`, or zero when the data does not hold all of it. */
  function WordAt(s: seq<byte>, i: nat): uint32 {
    if i + 4 <= |s| then Word(s[i..i + 4]) else 0
  }

  /** The first `n` bytes, with zeros for those that are missing. */
  predicate Filled(value: seq<byte>, s: seq<byte>, n: nat) {
    |value| == n && forall i :: 0 <= i < n ==> value[i] == if i < |s| then s[i] else 0
  }

  /** Up to the first zero and with it, or all when there is none. */
  predicate Terminated(value: seq<byte>, s: seq<byte>) {
    value <= s && (forall i :: 0 <= i < |value| - 1 ==> value[i] != 0) &&
    (value == s || (value != [] && value[|value| - 1] == 0))
  }

  predicate IsIdentify(s: seq<byte>, t: Token) {
    s != [] && t.Identify? && |t.accLingoes| == s[0] &&
    var n := s[0] as int;
    if |s| >= 1 + n
    then t.accLingoes == s[1..1 + n] && t.deviceOptions == WordAt(s, 1 + n) &&
         t.deviceID == if |s| >= 5 + n then WordAt(s, 5 + n) else 0
    else t == Identify(Zeros(n), 0, 0)
  }

  predicate IsAccInfo(s: seq<byte>, t: Token) {
    t.AccInfo? && s != [] && t.accInfoType == s[0] &&
    if s[0] in {0x01, 0x06, 0x07, 0x08} then Terminated(t.value, s[1..])
    else if s[0] in {0x04, 0x05} then Filled(t.value, s[1..], 3)
    else if s[0] == 0x09 then Filled(t.value, s[1..], 2)
    else s[0] in {0x0b, 0x0c} && Filled(t.value, s[1..], 4)
  }

  /** A token as it is read from the bytes behind type `a` and subtype `b`. */
  predicate IsToken(a: byte, b: byte, s: seq<byte>, t: Token) {
    if a == 0x01 then |s| >= 4 && t == MicrophoneCaps(WordAt(s, 0))
    else if a != 0x00 || b !in {0, 1, 2, 3, 4, 5, 7, 8} then t == Raw(s)
    else if b == 0 then IsIdentify(s, t)
    else if b == 1 then t == AccCaps(if |s| >= 8 then 0x1_0000_0000 * WordAt(s, 0) + WordAt(s, 4) else 0)
    else if b == 2 then IsAccInfo(s, t)
    else if b == 3 then |s| >= 3 && t == IPodPreference(s[0], s[1], s[2])
    else if b == 4 then |s| >= 1 && t == EAProtocol(s[0], s[1..])
    else if b == 5 then |s| >= 11 && t == BundleSeedIDPref(s[..11])
    else if b == 7 then
      |s| >= 14 && t.ScreenInfo? && |t.sizes| == 6 && t.features == s[12] && t.gamma == s[13] &&
      forall i :: 0 <= i < 6 ==> t.sizes[i] == 0x100 * s[2 * i] as int + s[2 * i + 1] as int
    else |s| >= 2 && t == EAProtocolMetadata(s[0], s[1])
  }

  lemma {:induction false} WordOf(s: seq<byte>)
    requires |s| >= 4
    ensures FromBigEndian(s[..4]) == WordAt(s, 0)
  {
    FromBigEndianFour(s[..4]);
    hide Word;
    assert s[..4][..0] == [] && s[..4][0..] == s[0..4];
    assert FromBigEndian([]) == 0;
    hide FromBigEndian;
  }

  lemma {:induction false} WordRead(s: seq<byte>)
    ensures ReadOrZero(s, 4) == if |s| >= 4 then (WordAt(s, 0), s[4..]) else (0, [])
  {
    hide FromBigEndian, WordAt;
    if |s| >= 4 {
      WordOf(s);
    }
  }

  lemma {:induction false} LongRead(s: seq<byte>)
    requires |s| >= 8
    ensures ReadOrZero(s, 8).0 == 0x1_0000_0000 * WordAt(s, 0) + WordAt(s, 4)
  {
    hide FromBigEndian, Word;
    FromBigEndianFour(s[..8]);
    WordOf(s);
    assert s[..8][..4] == s[..4] && s[..8][4..] == s[4..8];
  }

  lemma {:induction false} ShortsRead(s: seq<byte>, n: nat)
    requires |s| >= 2 * n
    ensures forall i :: 0 <= i < n ==> ReadShorts(s, n)[i] == 0x100 * s[2 * i] as int + s[2 * i + 1] as int
    decreases n
  {
    if n > 0 {
      ShortsRead(s[2..], n - 1);
      FromBigEndianTwo(s[..2]);
      forall i | 0 < i < n ensures ReadShorts(s, n)[i] == 0x100 * s[2 * i] as int + s[2 * i + 1] as int {
        assert ReadShorts(s, n)[i] == ReadShorts(s[2..], n - 1)[i - 1];
        assert s[2..][2 * (i - 1)] == s[2 * i] && s[2..][2 * (i - 1) + 1] == s[2 * i + 1];
      }
    }
  }

  lemma {:induction false} TerminatedRead(s: seq<byte>)
    ensures Terminated(UpToZero(s), s)
  {
    if s != [] && s[0] != 0 {
      TerminatedRead(s[1..]);
      var value := UpToZero(s);
      assert value[1..] == UpToZero(s[1..]) && s == [s[0]] + s[1..];
    }
  }

  lemma {:induction false} IdentifyRead(s: seq<byte>)
    requires s != []
    ensures ParseIdentify(s).Success? && IsIdentify(s, ParseIdentify(s).value)
  {
    var n := s[0] as int;
    if |s| >= 1 + n {
      WordRead(s[1 + n..]);
      if |s| >= 5 + n {
        WordRead(s[1 + n..][4..]);
        assert s[1 + n..][4..] == s[5 + n..];
        assert s[1 + n..][0..4] == s[1 + n..5 + n];
        assert |s| >= 9 + n ==> s[5 + n..][0..4] == s[5 + n..9 + n];
      } else {
        WordRead([]);
      }
    } else {
      WordRead([]);
    }
  }

  /** Every token that is read is what its bytes say, short ones and unknown kinds included. */
  lemma {:induction false} TokenReadsAs(s: seq<byte>)
    ensures ParseToken(s).Success? ==>
      |s| >= 2 && ParseToken(s).value.id == TokenID(s[0], s[1]) &&
      IsToken(s[0], s[1], s[2..], ParseToken(s).value.token)
  {
    if |s| >= 2 {
      var body := s[2..];
      if s[0] == 0 {
        if s[1] == 0 && body != [] {
          IdentifyRead(body);
        } else if s[1] == 1 && |body| >= 8 {
          LongRead(body);
        } else if s[1] == 2 && body != [] {
          TerminatedRead(body[1..]);
        } else if s[1] == 7 && |body| >= 14 {
          ShortsRead(body, 6);
        }
      } else if s[0] == 1 {
        WordRead(body);
      }
      hide FromBigEndian, UpToZero, ReadShorts, ParseIdentify, Word;
    }
  }

  /** And reading fails only on too few bytes, or on a kind of accessory information that does not exist. */
  lemma {:induction false} TokenFails(s: seq<byte>)
    ensures ParseToken(s).Failure? <==>
      |s| < 2 ||
      var body := s[2..];
      if s[0] == 0x01 then |body| < 4
      else if s[0] != 0x00 then false
      else if s[1] in {0, 4} then body == []
      else if s[1] == 2 then body == [] || body[0] !in {0x01, 0x04, 0x05, 0x06, 0x07, 0x08, 0x09, 0x0b, 0x0c}
      else if s[1] == 3 then |body| < 3
      else if s[1] == 5 then |body| < 11
      else if s[1] == 7 then |body| < 14
      else s[1] == 8 && |body| < 2
  {
    hide ReadOrZero, ReadShorts, UpToZero, PadTo;
  }

  /** An acknowledgement is read from any two bytes or more; what is behind its id is taken as it is. */
  lemma AckReads(s: seq<byte>)
    ensures ParseAck(s).Success? <==> |s| >= 2
    ensures |s| >= 2 ==> ParseAck(s).value.ack == Some(s[2..]) && ParseAck(s).value.id == TokenID(s[0], s[1])
  {
  }
}
