/** Lingo command ids and the registry that maps them to payload types (lingo.go). */
module Lingos {
  import opened Bytes

  datatype Error = ShortPacket | UnknownCommand | NilPayload | Unencodable

  const LINGO_GENERAL_ID: uint16 := 0x00
  const LINGO_EXT_REMOTE_ID: uint16 := 0x04

  // ---------------------------------------------------------------- ids

  function NewLingoCmdID(lingo: uint16, cmd: uint16): uint32 {
    lingo as int * 0x1_0000 + cmd as int
  }

  function LingoID(id: uint32): byte {
    id / 0x1_0000 % 0x100
  }

  function CmdID(id: uint32): uint16 {
    id % 0x1_0000
  }

  /** The extended interface has two-byte command ids. */
  function CmdIDLen(lingo: byte): nat {
    if lingo == LINGO_EXT_REMOTE_ID then 2 else 1
  }

  function MarshalID(id: uint32): seq<byte> {
    [LingoID(id)] + if CmdIDLen(LingoID(id)) == 2 then BigEndian(CmdID(id), 2) else [CmdID(id) % 0x100]
  }

  /** The id at the front of a packet, and what follows it. */
  function UnmarshalID(pkt: seq<byte>): Result<(uint32, seq<byte>), Error> {
    if pkt == [] then Failure(ShortPacket)
    else
      var n := CmdIDLen(pkt[0]);
      if |pkt| < 1 + n then Failure(ShortPacket)
      else
        FromBigEndianRoundTrip(pkt[1..1 + n]);
        assert Range(1) == 0x100 * Range(0) && Range(2) == 0x100 * Range(1);
        Success((NewLingoCmdID(pkt[0], FromBigEndian(pkt[1..1 + n])), pkt[1 + n..]))
  }

  /** The id has no bits above the lingo, and its command part fits the lingo's width. */
  predicate FitsWidth(id: uint32) {
    id < 0x100_0000 && (CmdIDLen(LingoID(id)) == 1 ==> CmdID(id) < 0x100)
  }

  lemma OneByte(b: byte)
    ensures FromBigEndian([b]) == b
  {
    assert [b][..0] == [];
  }

  /** An id survives the wire exactly when it fits its width. */
  lemma IDRoundTripExactly(id: uint32, rest: seq<byte>)
    ensures UnmarshalID(MarshalID(id) + rest).Success?
    ensures UnmarshalID(MarshalID(id) + rest).value.1 == rest
    ensures UnmarshalID(MarshalID(id) + rest).value.0 == id <==> FitsWidth(id)
  {
    var pkt := MarshalID(id) + rest;
    var n := CmdIDLen(LingoID(id));
    assert Range(1) == 0x100 * Range(0) && Range(2) == 0x100 * Range(1);
    if n == 2 {
      BigEndianRoundTrip(CmdID(id), 2);
      assert pkt[1..3] == BigEndian(CmdID(id), 2);
    } else {
      OneByte(CmdID(id) % 0x100);
      assert pkt[1..2] == [CmdID(id) % 0x100];
    }
    assert pkt[1 + n..] == rest;
    assert id == id / 0x1_0000 * 0x1_0000 + id % 0x1_0000;
  }

  // ---------------------------------------------------------------- registry

  /** A payload type; `size` is its fixed binary size, if it has one. */
  datatype PayloadType = PayloadType(name: string, size: Option<nat>)

  type Types = map<uint32, seq<PayloadType>>

  class Registry {
    var idToTypes: Types
    var typeToID: map<PayloadType, uint32>

    /** Whatever a type is looked up to, it is listed there. */
    ghost predicate Valid()
      reads this
    {
      forall t :: t in typeToID ==> typeToID[t] in idToTypes && t in idToTypes[typeToID[t]]
    }

    constructor ()
      ensures Valid() && idToTypes == map[] && typeToID == map[]
    {
      idToTypes, typeToID := map[], map[];
    }

    method StoreMapping(cmd: uint32, t: PayloadType)
      requires Valid()
      modifies this
      ensures Valid()
      ensures idToTypes == old(idToTypes)[cmd := TypesOf(old(idToTypes), cmd) + [t]]
      ensures typeToID == old(typeToID)[t := cmd]
    {
      idToTypes := idToTypes[cmd := TypesOf(idToTypes, cmd) + [t]];
      typeToID := typeToID[t := cmd];
    }

    /** The id under which a payload is sent: the receiver's lookup for it has the payload's type in its list. */
    method LookupID(t: PayloadType) returns (id: Option<uint32>)
      requires Valid()
      ensures id == if t in typeToID then Some(typeToID[t]) else None
      ensures id.Some? ==> id.value in idToTypes && t in idToTypes[id.value]
    {
      id := if t in typeToID then Some(typeToID[t]) else None;
    }
  }

  function TypesOf(types: Types, id: uint32): seq<PayloadType> {
    if id in types then types[id] else []
  }

  // ---------------------------------------------------------------- Lookup

  datatype LookupResult = LookupResult(payload: PayloadType, transaction: bool)

  /** The type matches a payload of `n` bytes, bare or behind a two-byte transaction. */
  predicate Matches(t: PayloadType, n: nat) {
    t.size == Some(n) || (n >= 2 && t.size == Some(n - 2))
  }

  function FirstMatch(types: seq<PayloadType>, n: nat): (i: nat)
    ensures i <= |types|
    ensures forall j :: 0 <= j < i ==> !Matches(types[j], n)
    ensures i < |types| ==> Matches(types[i], n)
  {
    if types == [] || Matches(types[0], n) then 0 else 1 + FirstMatch(types[1..], n)
  }

  function LookupIn(types: seq<PayloadType>, n: nat, defaultTrx: bool): Option<LookupResult> {
    var i := FirstMatch(types, n);
    if i < |types| then Some(LookupResult(types[i], types[i].size != Some(n)))
    else if |types| == 1 then Some(LookupResult(types[0], defaultTrx))
    else None
  }

  /** Type `i` is the first that has this length, bare or without the two bytes of a transaction. */
  predicate FirstOfLength(types: seq<PayloadType>, n: nat, i: nat) {
    i < |types| && types[i].size.Some? && types[i].size.value in {n, n - 2} &&
    forall j :: 0 <= j < i ==> types[j].size.Some? ==> types[j].size.value !in {n, n - 2}
  }

  /**
   What a lookup gives: the first type of this length, with a transaction exactly when its size is two
   bytes less; if there is none, an only type, with a transaction by default; otherwise nothing.
   */
  predicate IsLookup(types: seq<PayloadType>, n: nat, defaultTrx: bool, r: Option<LookupResult>) {
    if exists i :: 0 <= i < |types| && FirstOfLength(types, n, i)
    then exists i :: 0 <= i < |types| && FirstOfLength(types, n, i) &&
                     r == Some(LookupResult(types[i], types[i].size.value == n - 2))
    else r == if |types| == 1 then Some(LookupResult(types[0], defaultTrx)) else None
  }

  lemma {:induction false} LookupMeans(types: seq<PayloadType>, n: nat, defaultTrx: bool)
    ensures IsLookup(types, n, defaultTrx, LookupIn(types, n, defaultTrx))
  {
    var i := FirstMatch(types, n);
    if i < |types| {
      assert FirstOfLength(types, n, i);
    } else if k :| 0 <= k < |types| && FirstOfLength(types, n, k) {
      assert Matches(types[k], n);
    }
  }

  method Lookup(types: Types, id: uint32, payloadSize: nat, defaultTrxEnabled: bool) returns (r: Option<LookupResult>)
    ensures r == if id in types then LookupIn(types[id], payloadSize, defaultTrxEnabled) else None
    ensures if id in types then IsLookup(types[id], payloadSize, defaultTrxEnabled, r) else r == None
  {
    if id !in types {
      return None;
    }
    var payloads := types[id];
    LookupMeans(payloads, payloadSize, defaultTrxEnabled);
    hide IsLookup;
    for i := 0 to |payloads|
      invariant FirstMatch(payloads, payloadSize) == i + FirstMatch(payloads[i..], payloadSize)
    {
      assert payloads[i..][1..] == payloads[i + 1..];
      var cmdSize := payloads[i].size;
      if cmdSize == None {
        continue;
      }
      if cmdSize.value == payloadSize {
        return Some(LookupResult(payloads[i], false));
      } else if cmdSize.value == payloadSize - 2 {
        return Some(LookupResult(payloads[i], true));
      }
    }
    if |payloads| == 1 {
      return Some(LookupResult(payloads[0], defaultTrxEnabled));
    }
    r := None;
  }

  /** The payload length that type `t` gives, with or without a transaction in front. */
  function WireSize(size: nat, trx: bool): nat {
    if trx then size + 2 else size
  }

  predicate DistinctTypes(types: seq<PayloadType>) {
    forall i, j :: 0 <= i < j < |types| ==> types[i] != types[j]
  }

  /** A fixed-size type is recovered exactly when no earlier type matches the length it gives. */
  lemma FixedRecoveredExactly(types: seq<PayloadType>, j: nat, trx: bool, defaultTrx: bool)
    requires j < |types| && types[j].size.Some? && DistinctTypes(types)
    ensures var n := WireSize(types[j].size.value, trx);
            LookupIn(types, n, defaultTrx) == Some(LookupResult(types[j], trx))
            <==> forall i :: 0 <= i < j ==> !Matches(types[i], n)
  {
  }

  /** A variable-size type is found exactly when it is alone, and then the default decides about the transaction. */
  lemma VariableRecoveredExactly(types: seq<PayloadType>, j: nat, n: nat, trx: bool, defaultTrx: bool)
    requires j < |types| && types[j].size == None && DistinctTypes(types)
    ensures LookupIn(types, n, defaultTrx) == Some(LookupResult(types[j], trx)) <==> |types| == 1 && trx == defaultTrx
  {
  }

  predicate AllFixed(types: seq<PayloadType>) {
    forall i :: 0 <= i < |types| ==> types[i].size.Some?
  }

  /** No payload length, bare or with a transaction, is shared by two of the types. */
  predicate Unambiguous(types: seq<PayloadType>)
    requires AllFixed(types)
  {
    forall i, j :: 0 <= i < j < |types| ==>
      {types[i].size.value, types[i].size.value + 2} !! {types[j].size.value, types[j].size.value + 2}
  }

  ghost predicate AllRecovered(types: seq<PayloadType>)
    requires AllFixed(types)
  {
    forall j, trx, default :: 0 <= j < |types| ==>
      LookupIn(types, WireSize(types[j].size.value, trx), default) == Some(LookupResult(types[j], trx))
  }

  /** Every type is recovered in both forms exactly when the lengths are pairwise disjoint. */
  lemma AllRecoveredExactly(types: seq<PayloadType>)
    requires AllFixed(types) && DistinctTypes(types)
    ensures AllRecovered(types) <==> Unambiguous(types)
  {
    forall j, trx, default | 0 <= j < |types|
      ensures LookupIn(types, WireSize(types[j].size.value, trx), default) == Some(LookupResult(types[j], trx))
         <==> forall i :: 0 <= i < j ==> !Matches(types[i], WireSize(types[j].size.value, trx))
    {
      FixedRecoveredExactly(types, j, trx, default);
    }
    if AllRecovered(types) {
      forall i, j | 0 <= i < j < |types|
        ensures {types[i].size.value, types[i].size.value + 2} !! {types[j].size.value, types[j].size.value + 2}
      {
        assert LookupIn(types, WireSize(types[j].size.value, false), false) == Some(LookupResult(types[j], false));
        assert LookupIn(types, WireSize(types[j].size.value, true), false) == Some(LookupResult(types[j], true));
        assert !Matches(types[i], types[j].size.value) && !Matches(types[i], types[j].size.value + 2);
      }
    }
    if Unambiguous(types) {
      forall j, trx, default | 0 <= j < |types|
        ensures LookupIn(types, WireSize(types[j].size.value, trx), default) == Some(LookupResult(types[j], trx))
      {
        forall i | 0 <= i < j ensures !Matches(types[i], WireSize(types[j].size.value, trx)) {
          var s, t := types[i].size.value, types[j].size.value;
          assert {s, s + 2} !! {t, t + 2};
          assert s !in {t, t + 2} && s + 2 !in {t, t + 2};
        }
      }
    }
  }

  /** So for unambiguous lists the order of registration never matters. */
  lemma OrderIrrelevant(types: seq<PayloadType>, other: seq<PayloadType>)
    requires AllFixed(types) && DistinctTypes(types) && Unambiguous(types)
    requires |other| == |types| && DistinctTypes(other) && forall t :: t in types <==> t in other
    ensures AllFixed(other) && AllRecovered(other)
  {
    forall i | 0 <= i < |other| ensures other[i].size.Some? {
      assert other[i] in types;
    }
    forall i, j | 0 <= i < j < |other|
      ensures {other[i].size.value, other[i].size.value + 2} !! {other[j].size.value, other[j].size.value + 2}
    {
      assert other[i] in types && other[j] in types;
      var a :| 0 <= a < |types| && types[a] == other[i];
      var b :| 0 <= b < |types| && types[b] == other[j];
      assert a != b;
    }
    AllRecoveredExactly(other);
  }

  const ACKS :=
    [PayloadType("ACK", Some(2)), PayloadType("ACKPending", Some(6)), PayloadType("ACKDataDropped", Some(8))]

  /** The notifications under id 0x0027 of the extended interface. */
  const STATUS_CHANGES :=
    [PayloadType("PlayStatusChangeNotification", Some(2)),
     PayloadType("PlayStatusChangeNotificationTrackIndex", Some(5)),
     PayloadType("PlayStatusChangeNotificationExtended", Some(2)),
     PayloadType("PlayStatusChangeNotificationPosition", Some(5))]

  /** A type behind another of its size is never found, whatever the length. */
  lemma ShadowedNeverFound(types: seq<PayloadType>, i: nat, j: nat, n: nat, default: bool)
    requires i < j < |types| && DistinctTypes(types) && types[i].size.Some? && types[i].size == types[j].size
    ensures LookupIn(types, n, default).Some? ==> LookupIn(types, n, default).value.payload != types[j]
  {
    var k := FirstMatch(types, n);
    if k == j {
      assert Matches(types[i], n);
    }
  }

  /**
   The lists with more than one type: those of lingo-general/general.go:47-48 and
   lingo-extremote/extremote.go:51-52 are unambiguous.  The three acknowledgements of
   general.go:22-24 are not: a bare ACKDataDropped has the length of an ACKPending with a transaction.
   Of the four notifications of extremote.go:53-56 the last two are never found.
   */
  lemma RegisteredLists()
    ensures Unambiguous([PayloadType("GetDevAuthenticationSignatureV1", Some(17)),
                         PayloadType("GetDevAuthenticationSignatureV2", Some(21))])
    ensures Unambiguous([PayloadType("SetPlayStatusChangeNotification", Some(4)),
                         PayloadType("SetPlayStatusChangeNotificationShort", Some(1))])
    ensures !Unambiguous(ACKS) && LookupIn(ACKS, 8, false) == Some(LookupResult(ACKS[1], true))
    ensures !Unambiguous(STATUS_CHANGES)
    ensures forall n: nat, default: bool :: LookupIn(STATUS_CHANGES, n, default).Some? ==>
      LookupIn(STATUS_CHANGES, n, default).value.payload in STATUS_CHANGES[..2]
  {
    AmbiguousAcks();
    forall n: nat, default: bool | LookupIn(STATUS_CHANGES, n, default).Some?
      ensures LookupIn(STATUS_CHANGES, n, default).value.payload in STATUS_CHANGES[..2]
    {
      ShadowedNeverFound(STATUS_CHANGES, 0, 2, n, default);
      ShadowedNeverFound(STATUS_CHANGES, 1, 3, n, default);
      var k := FirstMatch(STATUS_CHANGES, n);
      assert k < 2 && STATUS_CHANGES[..2][k] == STATUS_CHANGES[k];
    }
    var shared := STATUS_CHANGES[0].size.value;
    assert shared in {STATUS_CHANGES[0].size.value} && shared in {STATUS_CHANGES[2].size.value};
  }

  lemma AmbiguousAcks()
    ensures !Unambiguous(ACKS) && LookupIn(ACKS, 8, false) == Some(LookupResult(ACKS[1], true))
  {
    assert 8 in {ACKS[1].size.value, ACKS[1].size.value + 2};
    assert 8 in {ACKS[2].size.value, ACKS[2].size.value + 2};
    assert !Matches(ACKS[0], 8) && Matches(ACKS[1], 8);
    var i := FirstMatch(ACKS, 8);
    assert i == 1;
  }
}
