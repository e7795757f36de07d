/** Traces as text, one message a line (trace/trace.go). */
module TraceText {
  import opened Bytes
  import opened Sequences
  import opened TraceQueue

  datatype Error = NoData | ShortMsg | UnknownSymbol | BadData | TooLong | EOF

  const TAB: byte := 0x09
  const NEWLINE: byte := 0x0A
  const CARRIAGE_RETURN: byte := 0x0D
  const SPACE: byte := 0x20

  /** The buffer of bufio.Scanner, which has to hold a line and its newline. */
  const MAX_TOKEN_SIZE: nat := 65536

  // ---------------------------------------------------------------- printing

  function Symbol(dir: Dir): byte {
    match dir
    case DirIn => 0x3C
    case DirOut => 0x3E
  }

  function HexDigit(n: nat): byte
    requires n < 16
  {
    if n < 10 then 0x30 + n else 0x41 + (n - 10)
  }

  function Pair(b: byte): seq<byte> {
    [HexDigit(b / 16), HexDigit(b % 16)]
  }

  function SpacedPairs(data: seq<byte>): seq<byte> {
    if data == [] then [] else if |data| == 1 then Pair(data[0]) else Pair(data[0]) + [SPACE] + SpacedPairs(data[1..])
  }

  function FormatMsg(m: Msg): Result<seq<byte>, Error> {
    if m.data == [] then Failure(NoData) else Success([Symbol(m.dir), SPACE] + SpacedPairs(m.data))
  }

  // ---------------------------------------------------------------- parsing

  function ParseSymbol(b: byte): Option<Dir> {
    if b == 0x3C then Some(DirIn) else if b == 0x3E then Some(DirOut) else None
  }

  predicate NotSpace(b: byte) {
    b != SPACE
  }

  /** How many bytes the first white space takes, in UTF-8, or zero. */
  function SpaceLen(s: seq<byte>): (n: nat)
    ensures n <= |s|
  {
    if |s| >= 1 && (TAB <= s[0] <= CARRIAGE_RETURN || s[0] == SPACE) then 1
    else if |s| >= 2 && s[0] == 0xC2 && s[1] in {0x85, 0xA0} then 2
    else if |s| >= 3 && s[..3] in {[0xE1, 0x9A, 0x80], [0xE2, 0x80, 0xA8], [0xE2, 0x80, 0xA9], [0xE2, 0x80, 0xAF],
                                   [0xE2, 0x81, 0x9F], [0xE3, 0x80, 0x80]} then 3
    else if |s| >= 3 && s[..2] == [0xE2, 0x80] && 0x80 <= s[2] <= 0x8A then 3
    else 0
  }

  /** Leading white space is skipped, but a newline is an error. */
  function SkipSpace(s: seq<byte>): Result<seq<byte>, Error> {
    if SpaceLen(s) == 0 then Success(s)
    else if s[0] == NEWLINE then Failure(BadData)
    else SkipSpace(s[SpaceLen(s)..])
  }

  function HexValue(b: byte): Option<nat> {
    if 0x30 <= b <= 0x39 then Some(b - 0x30)
    else if 0x41 <= b <= 0x46 then Some(b as int - 0x41 + 10)
    else if 0x61 <= b <= 0x66 then Some(b as int - 0x61 + 10)
    else None
  }

  /** Pairs of digits up to the first byte that is none; half a pair is an error. */
  function HexBytes(s: seq<byte>): Result<seq<byte>, Error> {
    if s == [] || HexValue(s[0]) == None then Success([])
    else if |s| == 1 || HexValue(s[1]) == None then Failure(BadData)
    else
      match HexBytes(s[2..])
      case Failure(e) => Failure(e)
      case Success(rest) => Success([(HexValue(s[0]).value * 16 + HexValue(s[1]).value) % 0x100] + rest)
  }

  /** fmt.Sscanf with the format %x; what follows the digits is ignored. */
  function ScanHex(s: seq<byte>): Result<seq<byte>, Error> {
    match SkipSpace(s)
    case Failure(e) => Failure(e)
    case Success(t) => if HexBytes(t) == Success([]) then Failure(BadData) else HexBytes(t)
  }

  /** A line as a direction and data; its second byte is not looked at. */
  function ParseMsg(text: seq<byte>): Result<(Dir, seq<byte>), Error> {
    if |text| < 4 then Failure(ShortMsg)
    else
      match ParseSymbol(text[0])
      case None => Failure(UnknownSymbol)
      case Some(dir) =>
        match ScanHex(Select(text[2..], NotSpace))
        case Failure(e) => Failure(e)
        case Success(data) => Success((dir, data))
  }

  // ---------------------------------------------------------------- one message

  function Pairs(data: seq<byte>): seq<byte> {
    if data == [] then [] else Pair(data[0]) + Pairs(data[1..])
  }

  lemma PairSurvives(b: byte)
    ensures HexValue(Pair(b)[0]) == Some(b / 16) && HexValue(Pair(b)[1]) == Some(b % 16)
    ensures Select(Pair(b), NotSpace) == Pair(b)
    ensures SPACE !in Pair(b) && NEWLINE !in Pair(b) && CARRIAGE_RETURN !in Pair(b)
  {
    SelectOne(Pair(b)[1], NotSpace);
    assert Pair(b)[1..] == [Pair(b)[1]];
  }

  lemma {:induction false} SpacesDropped(data: seq<byte>)
    ensures Select(SpacedPairs(data), NotSpace) == Pairs(data)
  {
    if data != [] {
      var first := Pair(data[0]);
      PairSurvives(data[0]);
      if |data| == 1 {
        assert data[1..] == [] && first + [] == first;
      } else {
        var later := SpacedPairs(data[1..]);
        SpacesDropped(data[1..]);
        SelectConcat(first + [SPACE], later, NotSpace);
        SelectConcat(first, [SPACE], NotSpace);
        SelectOne(SPACE, NotSpace);
      }
    }
  }

  lemma {:induction false} PairsRead(data: seq<byte>)
    ensures HexBytes(Pairs(data)) == Success(data)
  {
    if data != [] {
      PairSurvives(data[0]);
      PairsRead(data[1..]);
      var s := Pairs(data);
      assert s[0] == Pair(data[0])[0] && s[1] == Pair(data[0])[1] && s[2..] == Pairs(data[1..]);
      assert data[0] / 16 * 16 + data[0] % 16 == data[0];
      assert data == [data[0]] + data[1..];
    }
  }

  lemma {:induction false} SpacedPairsShape(data: seq<byte>)
    requires data != []
    ensures |SpacedPairs(data)| == 3 * |data| - 1
    ensures NEWLINE !in SpacedPairs(data) && CARRIAGE_RETURN !in SpacedPairs(data)
  {
    PairSurvives(data[0]);
    if |data| > 1 {
      SpacedPairsShape(data[1..]);
    }
  }

  /** A printed message parses to its direction and data. */
  lemma MsgRoundTrip(m: Msg)
    requires m.data != []
    ensures ParseMsg(FormatMsg(m).value) == Success((m.dir, m.data))
  {
    hide Select, SpacedPairs, HexBytes;
    var text := FormatMsg(m).value;
    SpacedPairsShape(m.data);
    assert text[2..] == SpacedPairs(m.data);
    SpacesDropped(m.data);
    PairsRead(m.data);
    PairSurvives(m.data[0]);
    var pairs := Pairs(m.data);
    assert pairs[0] == Pair(m.data[0])[0];
    assert SpaceLen(pairs) == 0;
  }

  /** Printing a parsed line gives a normal form: it parses to the same message. */
  lemma NormalForm(text: seq<byte>, ts: nat)
    requires ParseMsg(text).Success?
    ensures var (dir, data) := ParseMsg(text).value;
            FormatMsg(Msg(dir, ts, data)).Success? &&
            ParseMsg(FormatMsg(Msg(dir, ts, data)).value) == ParseMsg(text)
  {
    var (dir, data) := ParseMsg(text).value;
    MsgRoundTrip(Msg(dir, ts, data));
  }

  // ---------------------------------------------------------------- reading lines

  datatype Line = Line(text: seq<byte>) | Stop(error: Error)

  function DropCR(line: seq<byte>): seq<byte> {
    if line != [] && line[|line| - 1] == CARRIAGE_RETURN then line[..|line| - 1] else line
  }

  /** bufio.Scanner over lines: the next line, and what is left. */
  function NextLine(s: seq<byte>): (r: (Line, seq<byte>))
    ensures r.0.Line? ==> |r.1| < |s|
  {
    var n := IndexByte(s, NEWLINE);
    if n >= MAX_TOKEN_SIZE then (Stop(TooLong), s)
    else if s == [] then (Stop(EOF), s)
    else (Line(DropCR(s[..n])), s[Min(n + 1, |s|)..])
  }

  datatype Reading = Reading(rest: seq<byte>, ended: Option<Error>, ts: nat)

  function ReadStep(r: Reading): (Result<Msg, Error>, Reading)
    decreases |r.rest|
  {
    if r.ended.Some? then (Failure(r.ended.value), r)
    else
      var (line, rest) := NextLine(r.rest);
      match line
      case Stop(e) => (Failure(e), Reading(rest, Some(e), r.ts))
      case Line(text) =>
        if text == [] then ReadStep(Reading(rest, None, r.ts))
        else
          match ParseMsg(text)
          case Failure(e) => (Failure(e), Reading(rest, None, r.ts))
          case Success((dir, data)) => (Success(Msg(dir, r.ts, data)), Reading(rest, None, r.ts + 1))
  }

  class Reader {
    var rest: seq<byte>
    var err: Option<Error>
    var ts: nat

    constructor (text: seq<byte>)
      ensures Now() == Reading(text, None, 0)
    {
      rest, err, ts := text, None, 0;
    }

    function Now(): Reading
      reads this
    {
      Reading(rest, err, ts)
    }

    method ReadMsg() returns (r: Result<Msg, Error>)
      modifies this
      ensures (r, Now()) == ReadStep(old(Now()))
    {
      hide NextLine, ParseMsg;
      if err.Some? {
        return Failure(err.value);
      }
      while true
        invariant err == None && ReadStep(Now()) == ReadStep(old(Now()))
        decreases |rest|
      {
        var (line, left) := NextLine(rest);
        rest := left;
        match line {
          case Stop(e) =>
            err := Some(e);
            return Failure(e);
          case Line(text) =>
            if |text| == 0 {
              continue;
            }
            var msg := ParseMsg(text);
            if msg.Failure? {
              return Failure(msg.error);
            }
            r := Success(Msg(msg.value.0, ts, msg.value.1));
            ts := ts + 1;
            return;
        }
      }
    }
  }

  class Writer {
    var text: seq<byte>

    constructor ()
      ensures text == []
    {
      text := [];
    }

    method WriteMsg(m: Msg) returns (r: Result<(), Error>)
      modifies this
      ensures match FormatMsg(m)
              case Failure(e) => r == Failure(e) && text == old(text)
              case Success(t) => r == Success(()) && text == old(text) + t + [0x0A]
    {
      var t := FormatMsg(m);
      if t.Failure? {
        return Failure(t.error);
      }
      text := text + (t.value + [NEWLINE]);
      r := Success(());
    }
  }

  // ---------------------------------------------------------------- whole traces

  function WriteAll(msgs: seq<Msg>): seq<byte> {
    if msgs == [] then []
    else
      match FormatMsg(msgs[0])
      case Failure(_) => WriteAll(msgs[1..])
      case Success(t) => t + [NEWLINE] + WriteAll(msgs[1..])
  }

  /** What is read until the first error, and that error. */
  function ReadAll(r: Reading): (seq<Msg>, Error)
    decreases |r.rest|
  {
    ReadStepUses(r);
    match ReadStep(r)
    case (Failure(e), _) => ([], e)
    case (Success(m), r') =>
      var (later, e) := ReadAll(r');
      ([m] + later, e)
  }

  lemma ReadStepUses(r: Reading)
    ensures ReadStep(r).0.Success? ==> |ReadStep(r).1.rest| < |r.rest|
    decreases |r.rest|
  {
    if r.ended == None && NextLine(r.rest).0 == Line([]) {
      ReadStepUses(Reading(NextLine(r.rest).1, None, r.ts));
    }
  }

  /** The messages as a reader numbers them. */
  function Stamped(msgs: seq<Msg>, ts: nat): (stamped: seq<Msg>)
    ensures |stamped| == |msgs|
  {
    seq(|msgs|, i requires 0 <= i < |msgs| => msgs[i].(ts := ts + i))
  }

  lemma {:induction false} FirstNewline(line: seq<byte>, rest: seq<byte>)
    requires NEWLINE !in line
    ensures IndexByte(line + [NEWLINE] + rest, NEWLINE) == |line|
  {
    var s := line + [NEWLINE] + rest;
    if line != [] {
      FirstNewline(line[1..], rest);
      assert s[1..] == line[1..] + [NEWLINE] + rest;
    }
  }

  /** Data that makes a line too long for the scanner. */
  predicate Oversize(m: Msg) {
    |m.data| > 21844
  }

  lemma LineRead(m: Msg, rest: seq<byte>, ts: nat)
    requires m.data != []
    ensures FormatMsg(m).Success?
    ensures var s := FormatMsg(m).value + [NEWLINE] + rest;
            ReadStep(Reading(s, None, ts))
            == if Oversize(m) then (Failure(TooLong), Reading(s, Some(TooLong), ts))
               else (Success(m.(ts := ts)), Reading(rest, None, ts + 1))
  {
    hide ParseMsg, SpacedPairs, IndexByte;
    var line := FormatMsg(m).value;
    var s := line + [NEWLINE] + rest;
    SpacedPairsShape(m.data);
    assert NEWLINE !in line && line[|line| - 1] != CARRIAGE_RETURN;
    FirstNewline(line, rest);
    MsgRoundTrip(m);
    assert s[..|line|] == line && s[|line| + 1..] == rest;
  }

  lemma StreamStep(msgs: seq<Msg>, ts: nat)
    requires msgs != [] && msgs[0].data != []
    ensures ReadAll(Reading(WriteAll(msgs), None, ts))
         == if Oversize(msgs[0]) then ([], TooLong)
            else
              var (later, e) := ReadAll(Reading(WriteAll(msgs[1..]), None, ts + 1));
              ([msgs[0].(ts := ts)] + later, e)
  {
    hide FormatMsg, ReadStep;
    LineRead(msgs[0], WriteAll(msgs[1..]), ts);
  }

  lemma StampedStep(msgs: seq<Msg>, ts: nat)
    requires msgs != []
    ensures Stamped(msgs, ts) == [msgs[0].(ts := ts)] + Stamped(msgs[1..], ts + 1)
  {
  }

  predicate NoneOversize(msgs: seq<Msg>) {
    forall i :: 0 <= i < |msgs| ==> !Oversize(msgs[i])
  }

  predicate NoneEmpty(msgs: seq<Msg>) {
    forall i :: 0 <= i < |msgs| ==> msgs[i].data != []
  }

  /** A written trace reads back, numbered from zero up to its end, exactly when no message is oversize. */
  lemma {:induction false} StreamRoundTripExactly(msgs: seq<Msg>, ts: nat)
    requires NoneEmpty(msgs)
    ensures ReadAll(Reading(WriteAll(msgs), None, ts)) == (Stamped(msgs, ts), EOF) <==> NoneOversize(msgs)
    decreases msgs
  {
    if msgs != [] {
      var first, others := msgs[0].(ts := ts), msgs[1..];
      assert NoneEmpty(others);
      assert NoneOversize(msgs) <==> !Oversize(msgs[0]) && NoneOversize(others) by {
        assert forall i :: 0 < i < |msgs| ==> msgs[i] == others[i - 1];
      }
      StreamStep(msgs, ts);
      StampedStep(msgs, ts);
      hide ReadAll, WriteAll, Stamped, NoneOversize, NoneEmpty;
      StreamRoundTripExactly(others, ts + 1);
      ConsEqual(first, ReadAll(Reading(WriteAll(others), None, ts + 1)).0, first, Stamped(others, ts + 1));
    } else {
      assert IndexByte([], NEWLINE) == 0;
    }
  }

  /** Consecutive numbers from `ts`, and messages that can be printed. */
  predicate Numbered(msgs: seq<Msg>, ts: nat) {
    forall i :: 0 <= i < |msgs| ==> msgs[i].ts == ts + i && msgs[i].data != []
  }

  lemma NumberedCons(first: Msg, later: seq<Msg>, ts: nat)
    requires first.ts == ts && first.data != [] && Numbered(later, ts + 1)
    ensures Numbered([first] + later, ts)
  {
    assert forall i :: 0 < i <= |later| ==> ([first] + later)[i] == later[i - 1];
  }

  /** Of any text, what is read is numbered without gaps and can be printed. */
  lemma {:induction false} NumberedWithoutGaps(r: Reading)
    ensures Numbered(ReadAll(r).0, r.ts)
    decreases |r.rest|
  {
    ReadStepUses(r);
    ReadStepNumber(r);
    var (m, r') := ReadStep(r);
    if m.Success? {
      NumberedWithoutGaps(r');
      NumberedCons(m.value, ReadAll(r').0, r.ts);
    }
  }

  lemma {:induction false} ReadStepNumber(r: Reading)
    ensures ReadStep(r).0.Success? ==>
      ReadStep(r).0.value.ts == r.ts && ReadStep(r).0.value.data != [] && ReadStep(r).1.ts == r.ts + 1
    decreases |r.rest|
  {
    if r.ended == None && NextLine(r.rest).0 == Line([]) {
      ReadStepNumber(Reading(NextLine(r.rest).1, None, r.ts));
    }
  }
}
