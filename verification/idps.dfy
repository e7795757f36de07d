/**
 Identification: the token list of SetFIDTokenValues and its acknowledgement
 (lingo-general/general.go, lingo-general/handler.go).
 */
module Idps {
  import opened Bytes

  /** IndexOutOfRange is a panic. */
  datatype FormatError = Short | UnknownToken | UnknownAck | UnknownAccInfoType | IndexOutOfRange

  datatype TokenID = TokenID(fidType: byte, fidSubtype: byte)

  datatype Token =
    | Identify(accLingoes: seq<byte>, deviceOptions: uint32, deviceID: uint32)
    | AccCaps(accCapsBitmask: uint64)
    | AccInfo(accInfoType: byte, value: seq<byte>)
    | IPodPreference(prefClass: byte, prefClassSetting: byte, restoreOnExit: byte)
    | EAProtocol(protocolIndex: byte, protocolString: seq<byte>)
    | BundleSeedIDPref(bundleSeedID: seq<byte>)                    // 11 bytes
    | ScreenInfo(sizes: seq<uint16>, features: byte, gamma: byte)  // 6 sizes
    | EAProtocolMetadata(metaIndex: byte, metadataType: byte)
    | MicrophoneCaps(micCapsBitmask: uint32)
    | Raw(bytes: seq<byte>)

  datatype FIDTokenValue = FIDTokenValue(id: TokenID, token: Token)

  /** `ack` is None for Go's nil. */
  datatype FIDTokenValueACK = FIDTokenValueACK(id: TokenID, ack: Option<seq<byte>>)

  // ---------------------------------------------------------------- single tokens

  function Shorts(s: seq<uint16>): (r: seq<byte>)
    ensures |r| == 2 * |s|
  {
    if s == [] then [] else BigEndian(s[0], 2) + Shorts(s[1..])
  }

  /** The binary form; the two kinds that have no marshaller and no fixed size are refused. */
  function TokenBytes(t: Token): Result<seq<byte>, FormatError> {
    match t
    case Identify(lingoes, options, id) =>
      Success([|lingoes| % 0x100] + lingoes + BigEndian(options, 4) + BigEndian(id, 4))
    case AccCaps(mask) => Success(BigEndian(mask, 8))
    case AccInfo(_, _) => Failure(UnknownToken)
    case IPodPreference(c, s, r) => Success([c, s, r])
    case EAProtocol(_, _) => Failure(UnknownToken)
    case BundleSeedIDPref(seed) => Success(seed)
    case ScreenInfo(sizes, features, gamma) => Success(Shorts(sizes) + [features, gamma])
    case EAProtocolMetadata(i, m) => Success([i, m])
    case MicrophoneCaps(mask) => Success(BigEndian(mask, 4))
    case Raw(bytes) => Success(bytes)
  }

  function FormatToken(v: FIDTokenValue): Result<seq<byte>, FormatError> {
    match TokenBytes(v.token)
    case Failure(e) => Failure(e)
    case Success(b) => Success([v.id.fidType, v.id.fidSubtype] + b)
  }

  lemma FourByteRange()
    ensures Range(1) == 0x100 && Range(2) == 0x1_0000 && Range(4) == 0x1_0000_0000
    ensures Range(8) == 0x1_0000_0000_0000_0000
  {
    assert Range(1) == 0x100 * Range(0);
    assert Range(2) == 0x100 * Range(1);
    assert Range(3) == 0x100 * Range(2);
    assert Range(4) == 0x100 * Range(3);
    assert Range(5) == 0x100 * Range(4);
    assert Range(6) == 0x100 * Range(5);
    assert Range(7) == 0x100 * Range(6);
    assert Range(8) == 0x100 * Range(7);
  }

  /** A read whose error is dropped: a short input gives zero and is used up. */
  function ReadOrZero(s: seq<byte>, width: nat): (r: (nat, seq<byte>))
    ensures r.0 < Range(width)
  {
    if |s| < width then (0, [])
    else
      FromBigEndianRoundTrip(s[..width]);
      (FromBigEndian(s[..width]), s[width..])
  }

  function ParseIdentify(s: seq<byte>): Result<Token, FormatError> {
    if s == [] then Failure(Short)
    else
      FourByteRange();
      var n := s[0];
      var (lingoes, rest) := if |s| - 1 < n then (Zeros(n), []) else (s[1..1 + n], s[1 + n..]);
      var (options, rest') := ReadOrZero(rest, 4);
      Success(Identify(lingoes, options, ReadOrZero(rest', 4).0))
  }

  /** Up to and including the first zero byte. */
  function UpToZero(s: seq<byte>): seq<byte> {
    if s == [] || s[0] == 0 then s[..Min(|s|, 1)] else [s[0]] + UpToZero(s[1..])
  }

  function PadTo(s: seq<byte>, n: nat): seq<byte> {
    if |s| >= n then s[..n] else s + Zeros(n - |s|)
  }

  function ParseAccInfo(s: seq<byte>): Result<Token, FormatError> {
    var kind: byte := if s == [] then 0 else s[0];
    var rest := if s == [] then [] else s[1..];
    if kind in {0x01, 0x06, 0x07, 0x08} then Success(AccInfo(kind, UpToZero(rest)))
    else if kind in {0x04, 0x05} then Success(AccInfo(kind, PadTo(rest, 3)))
    else if kind == 0x09 then Success(AccInfo(kind, PadTo(rest, 2)))
    else if kind in {0x0b, 0x0c} then Success(AccInfo(kind, PadTo(rest, 4)))
    else Failure(UnknownAccInfoType)
  }

  function ReadShorts(s: seq<byte>, n: nat): (r: seq<uint16>)
    requires |s| >= 2 * n
    ensures |r| == n
  {
    if n == 0 then []
    else
      FromBigEndianRoundTrip(s[..2]);
      FourByteRange();
      [FromBigEndian(s[..2])] + ReadShorts(s[2..], n - 1)
  }

  /** The kind of token that an id announces; anything else is kept as raw bytes. */
  function ParseBody(id: TokenID, s: seq<byte>): Result<Token, FormatError> {
    FourByteRange();
    match (id.fidType, id.fidSubtype)
    case (0, 0) => ParseIdentify(s)
    case (0, 1) => Success(AccCaps(ReadOrZero(s, 8).0))
    case (0, 2) => ParseAccInfo(s)
    case (0, 3) => if |s| < 3 then Failure(Short) else Success(IPodPreference(s[0], s[1], s[2]))
    case (0, 4) => if s == [] then Failure(IndexOutOfRange) else Success(EAProtocol(s[0], s[1..]))
    case (0, 5) => if |s| < 11 then Failure(Short) else Success(BundleSeedIDPref(s[..11]))
    case (0, 7) => if |s| < 14 then Failure(Short) else Success(ScreenInfo(ReadShorts(s, 6), s[12], s[13]))
    case (0, 8) => if |s| < 2 then Failure(Short) else Success(EAProtocolMetadata(s[0], s[1]))
    case (1, _) => if |s| < 4 then Failure(Short) else Success(MicrophoneCaps(ReadOrZero(s, 4).0))
    case _ => Success(Raw(s))
  }

  function ParseToken(s: seq<byte>): Result<FIDTokenValue, FormatError> {
    if |s| < 2 then Failure(Short)
    else
      var id := TokenID(s[0], s[1]);
      match ParseBody(id, s[2..])
      case Failure(e) => Failure(e)
      case Success(t) => Success(FIDTokenValue(id, t))
  }

  /** The id is the one the decoder gives this kind of token to. */
  predicate Tagged(v: FIDTokenValue) {
    var id := (v.id.fidType, v.id.fidSubtype);
    match v.token
    case Identify(_, _, _) => id == (0, 0)
    case AccCaps(_) => id == (0, 1)
    case AccInfo(_, _) => id == (0, 2)
    case IPodPreference(_, _, _) => id == (0, 3)
    case EAProtocol(_, _) => id == (0, 4)
    case BundleSeedIDPref(_) => id == (0, 5)
    case ScreenInfo(_, _, _) => id == (0, 7)
    case EAProtocolMetadata(_, _) => id == (0, 8)
    case MicrophoneCaps(_) => v.id.fidType == 1
    case Raw(_) => v.id.fidType > 1 || (v.id.fidType == 0 && v.id.fidSubtype !in {0, 1, 2, 3, 4, 5, 7, 8})
  }

  /** A token that has a binary form of at most 255 bytes, the tag included. */
  predicate Portable(v: FIDTokenValue) {
    Tagged(v) &&
    match v.token
    case Identify(lingoes, _, _) => |lingoes| <= 244
    case BundleSeedIDPref(seed) => |seed| == 11
    case ScreenInfo(sizes, _, _) => |sizes| == 6
    case Raw(bytes) => |bytes| <= 253
    case AccInfo(_, _) => false
    case EAProtocol(_, _) => false
    case _ => true
  }

  lemma ShortRoundTrip(n: uint16)
    ensures FromBigEndian(BigEndian(n, 2)) == n
  {
    FourByteRange();
    BigEndianRoundTrip(n, 2);
  }

  lemma {:induction false} ShortsRoundTrip(s: seq<uint16>, rest: seq<byte>)
    ensures ReadShorts(Shorts(s) + rest, |s|) == s
  {
    hide BigEndian, FromBigEndian;
    if s != [] {
      var first, others := BigEndian(s[0], 2), Shorts(s[1..]);
      ShortRoundTrip(s[0]);
      ShortsRoundTrip(s[1..], rest);
      AppendAssociative(first, others, rest);
      assert (first + (others + rest))[..2] == first && (first + (others + rest))[2..] == others + rest;
    }
  }

  lemma ReadBack(n: nat, width: nat, rest: seq<byte>)
    requires n < Range(width)
    ensures ReadOrZero(BigEndian(n, width) + rest, width) == (n, rest)
  {
    BigEndianRoundTrip(n, width);
    assert (BigEndian(n, width) + rest)[..width] == BigEndian(n, width);
  }

  lemma IdentifyRoundTrip(t: Token)
    requires t.Identify? && |t.accLingoes| <= 255
    ensures ParseIdentify(TokenBytes(t).value) == Success(t)
  {
    FourByteRange();
    var n, tail := |t.accLingoes|, BigEndian(t.deviceOptions, 4) + BigEndian(t.deviceID, 4);
    var s := TokenBytes(t).value;
    assert s == [n] + t.accLingoes + tail;
    assert s[1..1 + n] == t.accLingoes && s[1 + n..] == tail;
    ReadBack(t.deviceOptions, 4, BigEndian(t.deviceID, 4));
    assert BigEndian(t.deviceID, 4) + [] == BigEndian(t.deviceID, 4);
    ReadBack(t.deviceID, 4, []);
  }

  lemma TokenRoundTrip(v: FIDTokenValue)
    requires Portable(v)
    ensures FormatToken(v).Success? && 2 <= |FormatToken(v).value| <= 255
    ensures ParseToken(FormatToken(v).value) == Success(v)
  {
    FourByteRange();
    var body := TokenBytes(v.token).value;
    assert FormatToken(v).value[2..] == body;
    match v.token
    case Identify(_, _, _) =>
      IdentifyRoundTrip(v.token);
    case AccCaps(mask) =>
      assert body + [] == body;
      ReadBack(mask, 8, []);
    case ScreenInfo(sizes, _, _) =>
      ShortsRoundTrip(sizes, [v.token.features, v.token.gamma]);
    case MicrophoneCaps(mask) =>
      assert body + [] == body;
      ReadBack(mask, 4, []);
    case BundleSeedIDPref(seed) =>
      assert body[..11] == seed;
    case _ =>
  }

  // ---------------------------------------------------------------- length-prefixed lists

  /** Each item behind one byte that holds its length, as far as a byte can. */
  function Join<T>(items: seq<T>, format: T -> Result<seq<byte>, FormatError>): Result<seq<byte>, FormatError> {
    if items == [] then Success([])
    else
      match format(items[0])
      case Failure(e) => Failure(e)
      case Success(b) =>
        match Join(items[1..], format)
        case Failure(e) => Failure(e)
        case Success(rest) => Success([|b| % 0x100] + b + rest)
  }

  function Split<T>(s: seq<byte>, count: nat, parse: seq<byte> -> Result<T, FormatError>): Result<seq<T>, FormatError> {
    if count == 0 then Success([])
    else if s == [] then Failure(Short)
    else
      var n := Min(s[0], |s| - 1);
      match parse(s[1..1 + n])
      case Failure(e) => Failure(e)
      case Success(x) =>
        match Split(s[1 + n..], count - 1, parse)
        case Failure(e) => Failure(e)
        case Success(rest) => Success([x] + rest)
  }

  function MarshalList<T>(items: seq<T>, format: T -> Result<seq<byte>, FormatError>): Result<seq<byte>, FormatError> {
    match Join(items, format)
    case Failure(e) => Failure(e)
    case Success(b) => Success([|items| % 0x100] + b)
  }

  function UnmarshalList<T>(s: seq<byte>, parse: seq<byte> -> Result<T, FormatError>): Result<seq<T>, FormatError> {
    if s == [] then Failure(Short) else Split(s[1..], s[0], parse)
  }

  /** The item fits its length byte and reads back. */
  predicate Survives<T(==)>(x: T, format: T -> Result<seq<byte>, FormatError>,
                            parse: seq<byte> -> Result<T, FormatError>)
  {
    format(x).Success? && |format(x).value| <= 255 && parse(format(x).value) == Success(x)
  }

  lemma {:induction false} JoinSplit<T>(items: seq<T>, format: T -> Result<seq<byte>, FormatError>,
                                        parse: seq<byte> -> Result<T, FormatError>)
    requires forall i :: 0 <= i < |items| ==> Survives(items[i], format, parse)
    ensures Join(items, format).Success? && Split(Join(items, format).value, |items|, parse) == Success(items)
  {
    if items != [] {
      JoinSplit(items[1..], format, parse);
      var b, rest := format(items[0]).value, Join(items[1..], format).value;
      var s := Join(items, format).value;
      assert s == [|b|] + b + rest;
      assert s[1..1 + |b|] == b && s[1 + |b|..] == rest;
      assert items == [items[0]] + items[1..];
    }
  }

  lemma ListRoundTrip<T>(items: seq<T>, format: T -> Result<seq<byte>, FormatError>,
                         parse: seq<byte> -> Result<T, FormatError>)
    requires |items| <= 255 && forall i :: 0 <= i < |items| ==> Survives(items[i], format, parse)
    ensures MarshalList(items, format).Success?
    ensures UnmarshalList(MarshalList(items, format).value, parse) == Success(items)
  {
    hide Join, Split, Survives;
    JoinSplit(items, format, parse);
    var joined := Join(items, format).value;
    assert ([|items| as byte] + joined)[1..] == joined;
  }

  lemma {:induction false} JoinSucceedsExactly<T>(items: seq<T>, format: T -> Result<seq<byte>, FormatError>)
    ensures Join(items, format).Success? <==> forall i :: 0 <= i < |items| ==> format(items[i]).Success?
  {
    if items != [] {
      var others := items[1..];
      JoinSucceedsExactly(others, format);
      assert forall i :: 0 <= i < |others| ==> others[i] == items[i + 1];
      assert forall i :: 0 < i < |items| ==> items[i] == others[i - 1];
    }
  }

  /** More than 255 items never come back: the count byte has lost some. */
  lemma {:induction false} SplitCount<T>(s: seq<byte>, count: nat, parse: seq<byte> -> Result<T, FormatError>)
    ensures Split(s, count, parse).Success? ==> |Split(s, count, parse).value| == count
    decreases count
  {
    if count > 0 && s != [] {
      SplitCount(s[1 + Min(s[0], |s| - 1)..], count - 1, parse);
    }
  }

  // ---------------------------------------------------------------- the two messages

  lemma EmptyPrefix<T>(e: seq<T>)
    requires e == []
    ensures forall s: seq<T> {:trigger e + s} :: e + s == s
  {
  }

  /** The loop of both marshallers, for tokens and for their acknowledgements. */
  method MarshalItems<T>(values: seq<T>, format: T -> Result<seq<byte>, FormatError>)
    returns (r: Result<seq<byte>, FormatError>)
    ensures r == MarshalList(values, format)
  {
    var buf: seq<byte> := [|values| % 0x100];
    assert values[0..] == values;
    EmptyPrefix(buf[1..]);
    for i := 0 to |values|
      invariant |buf| >= 1 && buf[0] == |values| % 0x100
      invariant Join(values, format)
             == match Join(values[i..], format)
                case Failure(e) => Failure(e)
                case Success(b) => Success(buf[1..] + b)
    {
      assert values[i..][1..] == values[i + 1..];
      var itemBytes := format(values[i]);
      if itemBytes.Failure? {
        return Failure(itemBytes.error);
      }
      ghost var before, entry := buf[1..], [|itemBytes.value| % 0x100] + itemBytes.value;
      buf := buf + [|itemBytes.value| % 0x100];
      buf := buf + itemBytes.value;
      assert buf[1..] == before + entry;
      forall b: seq<byte> {:trigger before + (entry + b)} ensures before + (entry + b) == buf[1..] + b {
        AppendAssociative(before, entry, b);
      }
    }
    assert values[|values|..] == [] && buf[1..] + [] == buf[1..];
    assert buf == [buf[0]] + buf[1..];
    r := Success(buf);
  }

  /** The result of a whole list, once `done` has been read and `r` is the result of the rest. */
  function Resumed<T>(done: seq<T>, r: Result<seq<T>, FormatError>): Result<seq<T>, FormatError> {
    match r
    case Failure(e) => Failure(e)
    case Success(rest) => Success(done + rest)
  }

  lemma ResumedNone<T>(r: Result<seq<T>, FormatError>)
    ensures Resumed([], r) == r
  {
    assert r.Success? ==> [] + r.value == r.value;
  }

  lemma ResumedOne<T>(done: seq<T>, x: T, r: Result<seq<T>, FormatError>)
    ensures Resumed(done, Resumed([x], r)) == Resumed(done + [x], r)
  {
    if r.Success? {
      AppendAssociative(done, [x], r.value);
    }
  }

  lemma SplitStep<T>(s: seq<byte>, count: nat, parse: seq<byte> -> Result<T, FormatError>)
    requires count >= 1 && s != []
    ensures var n := Min(s[0], |s| - 1);
            Split(s, count, parse)
            == match parse(s[1..1 + n])
               case Failure(e) => Failure(e)
               case Success(x) => Resumed([x], Split(s[1 + n..], count - 1, parse))
  {
  }

  lemma SplitNothing<T>(s: seq<byte>, parse: seq<byte> -> Result<T, FormatError>)
    ensures Split(s, 0, parse) == Success([])
  {
  }

  lemma SplitShort<T>(count: nat, parse: seq<byte> -> Result<T, FormatError>)
    requires count >= 1
    ensures Split([], count, parse) == Failure(Short)
  {
  }

  /** The loop of both unmarshallers. */
  method UnmarshalItems<T>(data: seq<byte>, parse: seq<byte> -> Result<T, FormatError>)
    returns (r: Result<seq<T>, FormatError>)
    ensures r == UnmarshalList(data, parse)
  {
    hide Split;
    if data == [] {
      return Failure(Short);
    }
    var count, br := data[0] as int, data[1..];
    var values: seq<T> := [];
    ResumedNone(Split(br, count, parse));
    for i := 0 to count
      invariant Split(data[1..], count, parse) == Resumed(values, Split(br, count - i, parse))
    {
      if br == [] {
        SplitShort(count - i, parse);
        return Failure(Short);
      }
      SplitStep(br, count - i, parse);
      var n := Min(br[0], |br| - 1);
      var itemBytes := br[1..1 + n];
      br := br[1 + n..];
      var v := parse(itemBytes);
      if v.Failure? {
        return Failure(v.error);
      }
      ResumedOne(values, v.value, Split(br, count - i - 1, parse));
      values := values + [v.value];
    }
    SplitNothing(br, parse);
    assert values + [] == values;
    r := Success(values);
  }

  // ---------------------------------------------------------------- acknowledgements

  function AckToken(v: FIDTokenValue): FIDTokenValueACK {
    FIDTokenValueACK(v.id,
      match v.token
      case AccInfo(t, _) => Some([0x00, t])
      case IPodPreference(c, _, _) => Some([0x00, c])
      case EAProtocol(i, _) => Some([0x00, i])
      case Raw(_) => None
      case _ => Some([0x00]))
  }

  /** What an acknowledgement repeats of its token. */
  function Echo(t: Token): seq<byte> {
    if t.AccInfo? then [t.accInfoType]
    else if t.IPodPreference? then [t.prefClass]
    else if t.EAProtocol? then [t.protocolIndex]
    else []
  }

  /** An acknowledgement has its token's id and, unless the kind is unknown, the status 0 and what it repeats. */
  predicate Acknowledges(a: FIDTokenValueACK, v: FIDTokenValue) {
    a.id == v.id && a.ack == if v.token.Raw? then None else Some([0x00] + Echo(v.token))
  }

  lemma AckAcknowledges(v: FIDTokenValue)
    ensures Acknowledges(AckToken(v), v)
  {
    assert [0x00 as byte] + Echo(v.token) == if Echo(v.token) == [] then [0x00] else [0x00, Echo(v.token)[0]];
  }

  method AckTokens(values: seq<FIDTokenValue>) returns (acks: seq<FIDTokenValueACK>)
    ensures |acks| == |values| && forall i :: 0 <= i < |values| ==> Acknowledges(acks[i], values[i])
  {
    acks := [];
    for i := 0 to |values|
      invariant |acks| == i && forall k :: 0 <= k < i ==> Acknowledges(acks[k], values[k])
    {
      AckAcknowledges(values[i]);
      acks := acks + [AckToken(values[i])];
    }
  }

  function FormatAck(a: FIDTokenValueACK): Result<seq<byte>, FormatError> {
    match a.ack
    case None => Failure(UnknownAck)
    case Some(b) => Success([a.id.fidType, a.id.fidSubtype] + b)
  }

  function ParseAck(s: seq<byte>): Result<FIDTokenValueACK, FormatError> {
    if |s| < 2 then Failure(Short) else Success(FIDTokenValueACK(TokenID(s[0], s[1]), Some(s[2..])))
  }

  /**
   The reply acknowledges every token under its own id.  It can be sent, and then reads back as
   itself, exactly when the request held no token of a kind the decoder does not know.
   */
  lemma ReplySentExactly(values: seq<FIDTokenValue>, acks: seq<FIDTokenValueACK>)
    requires |values| <= 255
    requires |acks| == |values| && forall i :: 0 <= i < |values| ==> Acknowledges(acks[i], values[i])
    ensures MarshalList(acks, FormatAck).Success? <==> forall i :: 0 <= i < |values| ==> !values[i].token.Raw?
    ensures MarshalList(acks, FormatAck).Success? ==>
      UnmarshalList(MarshalList(acks, FormatAck).value, ParseAck) == Success(acks)
    ensures forall i :: 0 <= i < |values| ==> acks[i].id == values[i].id
  {
    JoinSucceedsExactly(acks, FormatAck);
    if forall i :: 0 <= i < |values| ==> !values[i].token.Raw? {
      forall i | 0 <= i < |acks| ensures Survives(acks[i], FormatAck, ParseAck) {
        assert FormatAck(acks[i]).value[2..] == acks[i].ack.value;
      }
      ListRoundTrip(acks, FormatAck, ParseAck);
    } else {
      var k :| 0 <= k < |values| && values[k].token.Raw?;
      assert FormatAck(acks[k]).Failure?;
    }
  }

  /** And a request from the wire always has a count that the reply can carry. */
  lemma RequestCount(data: seq<byte>)
    ensures UnmarshalList(data, ParseToken).Success? ==> |UnmarshalList(data, ParseToken).value| == data[0] <= 255
  {
    if data != [] {
      SplitCount(data[1..], data[0], ParseToken);
    }
  }
}
