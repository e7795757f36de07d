/** Trace lines byte by byte: what is printed, what spellings are read, and how lines may end (trace/trace.go). */
module TraceTextLaws {
  import opened Bytes
  import opened Sequences
  import opened TraceQueue
  import opened TraceText
  import Utf8

  // ---------------------------------------------------------------- printing

  /** The byte of an upper-case hexadecimal digit. */
  function Upper(n: nat): int
    requires n < 16
  {
    if n < 10 then '0' as int + n else 'A' as int + (n - 10)
  }

  lemma {:induction false} PairsPrinted(data: seq<byte>)
    requires data != []
    ensures var s := SpacedPairs(data);
            |s| == 3 * |data| - 1 &&
            (forall i :: 0 <= i < |data| ==> s[3 * i] == Upper(data[i] / 16) && s[3 * i + 1] == Upper(data[i] % 16)) &&
            forall i :: 0 <= i < |data| - 1 ==> s[3 * i + 2] == 0x20
    decreases data
  {
    if |data| > 1 {
      var s, later := SpacedPairs(data), SpacedPairs(data[1..]);
      PairsPrinted(data[1..]);
      assert s == Pair(data[0]) + [SPACE] + later;
      hide SpacedPairs;
      forall i | 0 < i < |data|
        ensures s[3 * i] == Upper(data[i] / 16) && s[3 * i + 1] == Upper(data[i] % 16)
        ensures i < |data| - 1 ==> s[3 * i + 2] == 0x20
      {
        var k := i - 1;
        assert data[1..][k] == data[i];
        assert s[3 * i] == later[3 * k] && s[3 * i + 1] == later[3 * k + 1];
        assert i < |data| - 1 ==> s[3 * i + 2] == later[3 * k + 2];
      }
    }
  }

  /** A message as text: an arrow, and for every byte a space and two upper-case digits, the higher first. */
  lemma {:induction false} MsgAsText(m: Msg)
    requires m.data != []
    ensures FormatMsg(m).Success?
    ensures var text := FormatMsg(m).value;
            |text| == 3 * |m.data| + 1 && text[0] == (if m.dir == DirIn then '<' else '>') as int &&
            forall i :: 0 <= i < |m.data| ==>
              text[3 * i + 1] == ' ' as int &&
              text[3 * i + 2] == Upper(m.data[i] / 16) && text[3 * i + 3] == Upper(m.data[i] % 16)
  {
    PairsPrinted(m.data);
    var text, s := FormatMsg(m).value, SpacedPairs(m.data);
    hide SpacedPairs;
    forall i | 0 <= i < |m.data|
      ensures text[3 * i + 1] == 0x20
      ensures text[3 * i + 2] == Upper(m.data[i] / 16) && text[3 * i + 3] == Upper(m.data[i] % 16)
    {
      if i > 0 {
        var k := i - 1;
        assert text[3 * i + 1] == s[3 * k + 2];
      }
    }
  }

  // ---------------------------------------------------------------- spellings

  /** Either case of a hexadecimal digit. */
  predicate Spells(b: byte, n: nat) {
    (n < 10 && b == '0' as int + n) || (10 <= n < 16 && b == 'A' as int + (n - 10)) ||
    (10 <= n < 16 && b == 'a' as int + (n - 10))
  }

  predicate IsDigit(b: byte) {
    '0' as int <= b <= '9' as int || 'A' as int <= b <= 'F' as int || 'a' as int <= b <= 'f' as int
  }

  predicate SpellsAll(digits: seq<byte>, data: seq<byte>) {
    |digits| == 2 * |data| && forall i :: 0 <= i < |data| ==>
      Spells(digits[2 * i], data[i] / 16) && Spells(digits[2 * i + 1], data[i] % 16)
  }

  /** The characters of Unicode that are white space. */
  predicate IsSpace(c: Utf8.scalar) {
    c in {0x09, 0x0A, 0x0B, 0x0C, 0x0D, 0x20, 0x85, 0xA0, 0x1680, 0x2028, 0x2029, 0x202F, 0x205F, 0x3000} ||
    0x2000 <= c <= 0x200A
  }

  /** White space other than newlines. */
  predicate Blank(cs: seq<Utf8.scalar>) {
    forall i :: 0 <= i < |cs| ==> IsSpace(cs[i]) && cs[i] != 0x0A
  }

  predicate StartsNoDigit(s: seq<byte>) {
    s == [] || !IsDigit(s[0])
  }

  lemma DigitMeans(b: byte)
    ensures HexValue(b) == None <==> !IsDigit(b)
    ensures forall n: nat :: Spells(b, n) ==> HexValue(b) == Some(n)
  {
  }

  lemma {:induction false} SpellsLater(digits: seq<byte>, data: seq<byte>)
    requires SpellsAll(digits, data) && data != []
    ensures SpellsAll(digits[2..], data[1..])
    ensures Spells(digits[0], data[0] / 16) && Spells(digits[1], data[0] % 16)
  {
    var later, others := digits[2..], data[1..];
    assert Spells(digits[2 * 0], data[0] / 16) && Spells(digits[2 * 0 + 1], data[0] % 16);
    forall i | 0 <= i < |others|
      ensures Spells(later[2 * i], others[i] / 16) && Spells(later[2 * i + 1], others[i] % 16)
    {
      var k := i + 1;
      assert later[2 * i] == digits[2 * k] && later[2 * i + 1] == digits[2 * k + 1] && others[i] == data[k];
    }
  }

  lemma {:induction false} HexStep(high: byte, low: byte, b: byte, s: seq<byte>)
    requires Spells(high, b / 16) && Spells(low, b % 16)
    ensures HexBytes([high, low] + s)
         == match HexBytes(s)
            case Failure(e) => Failure(e)
            case Success(rest) => Success([b] + rest)
  {
    hide Spells, HexValue;
    DigitMeans(high);
    DigitMeans(low);
    assert ([high, low] + s)[2..] == s;
  }

  /** The first pair is one byte, and what follows decides about the rest. */
  lemma {:induction false} FirstPair(digits: seq<byte>, data: seq<byte>, s: seq<byte>)
    requires SpellsAll(digits, data) && data != []
    ensures SpellsAll(digits[2..], data[1..])
    ensures HexBytes(digits + s)
         == match HexBytes(digits[2..] + s)
            case Failure(e) => Failure(e)
            case Success(rest) => Success([data[0]] + rest)
  {
    hide HexBytes, HexValue, Spells;
    SpellsLater(digits, data);
    HexStep(digits[0], digits[1], data[0], digits[2..] + s);
    assert [digits[0], digits[1]] + (digits[2..] + s) == digits + s;
  }

  lemma {:induction false} DigitsRead(digits: seq<byte>, data: seq<byte>, junk: seq<byte>)
    requires SpellsAll(digits, data) && StartsNoDigit(junk)
    ensures HexBytes(digits + junk) == Success(data)
    decreases data
  {
    if data == [] {
      assert digits + junk == junk;
      if junk != [] {
        DigitMeans(junk[0]);
      }
    } else {
      hide HexBytes, SpellsAll;
      FirstPair(digits, data, junk);
      DigitsRead(digits[2..], data[1..], junk);
      assert data == [data[0]] + data[1..];
    }
  }

  lemma ShortSpace(c: Utf8.scalar, s: seq<byte>)
    requires c < 0x800 && Utf8.Encode(c) <= s
    ensures SpaceLen(s) == if IsSpace(c) then |Utf8.Encode(c)| else 0
  {
    var e := Utf8.Encode(c);
    assert forall i :: 0 <= i < |e| ==> s[i] == e[i];
  }

  lemma LongSpace(c: Utf8.scalar, s: seq<byte>)
    requires c >= 0x800 && Utf8.Encode(c) <= s
    ensures SpaceLen(s) == if IsSpace(c) then |Utf8.Encode(c)| else 0
  {
    var e := Utf8.Encode(c);
    assert forall i :: 0 <= i < |e| ==> s[i] == e[i];
    assert s[..2] == [e[0], e[1]] && s[..3] == [e[0], e[1], e[2]];
  }

  /** White space is recognised by the character that the text starts with. */
  lemma SpaceMeans(c: Utf8.scalar, s: seq<byte>)
    requires Utf8.Encode(c) <= s
    ensures SpaceLen(s) == if IsSpace(c) then |Utf8.Encode(c)| else 0
  {
    if c < 0x800 {
      ShortSpace(c, s);
    } else {
      LongSpace(c, s);
    }
  }

  /** And bytes that are no character are none. */
  lemma SpaceIsCharacter(s: seq<byte>)
    requires SpaceLen(s) > 0
    ensures exists c: Utf8.scalar :: IsSpace(c) && Utf8.Encode(c) <= s
  {
    var c: Utf8.scalar :=
      if SpaceLen(s) == 1 then s[0]
      else if SpaceLen(s) == 2 then s[1]
      else if s[0] == 0xE1 then 0x1680
      else if s[0] == 0xE3 then 0x3000
      else 0x2000 + 0x40 * (s[1] as int - 0x80) + (s[2] as int - 0x80);
    assert IsSpace(c) && Utf8.Encode(c) <= s;
  }

  lemma {:induction false} BlanksSkipped(blank: seq<Utf8.scalar>, s: seq<byte>)
    requires Blank(blank) && SpaceLen(s) == 0
    ensures SkipSpace(Utf8.EncodeAll(blank) + s) == Success(s)
    decreases blank
  {
    if blank == [] {
      assert Utf8.EncodeAll(blank) + s == s;
    } else {
      var first, later := Utf8.Encode(blank[0]), Utf8.EncodeAll(blank[1..]);
      BlanksSkipped(blank[1..], s);
      AppendAssociative(first, later, s);
      var t := first + (later + s);
      SpaceMeans(blank[0], t);
      NewlineAlone(blank[0], t);
      hide SpaceLen, IsSpace, Utf8.Encode;
      assert t[|first|..] == later + s;
    }
  }

  lemma NewlineAlone(c: Utf8.scalar, s: seq<byte>)
    requires Utf8.Encode(c) <= s
    ensures |Utf8.Encode(c)| >= 1 && (s[0] == NEWLINE <==> c == 0x0A)
  {
    assert s[0] == Utf8.Encode(c)[0];
  }

  lemma DigitIsNoSpace(s: seq<byte>)
    requires s != [] && IsDigit(s[0])
    ensures SpaceLen(s) == 0
  {
  }

  /**
   Every spelling of a message is read: digits of either case, with spaces anywhere and any white space
   in front, whatever follows the last pair, and with any second byte.
   */
  lemma {:induction false} SpellingRead(text: seq<byte>, blank: seq<Utf8.scalar>, digits: seq<byte>, junk: seq<byte>,
                                        data: seq<byte>)
    requires |text| >= 4 && text[0] in {'<' as int, '>' as int} && data != []
    requires Select(text[2..], NotSpace) == Utf8.EncodeAll(blank) + (digits + junk)
    requires Blank(blank) && SpellsAll(digits, data) && StartsNoDigit(junk)
    ensures ParseMsg(text) == Success((if text[0] == '<' as int then DirIn else DirOut, data))
  {
    hide Select, SpaceLen;
    assert Spells(digits[2 * 0], data[0] / 16) && (digits + junk)[0] == digits[0];
    DigitIsNoSpace(digits + junk);
    BlanksSkipped(blank, digits + junk);
    DigitsRead(digits, data, junk);
  }

  lemma {:induction false} HalfPairFails(digits: seq<byte>, data: seq<byte>, half: byte, junk: seq<byte>)
    requires SpellsAll(digits, data) && IsDigit(half) && StartsNoDigit(junk)
    ensures HexBytes(digits + ([half] + junk)) == Failure(BadData)
    decreases data
  {
    DigitMeans(half);
    if data == [] {
      assert digits + ([half] + junk) == [half] + junk;
      if junk != [] {
        DigitMeans(junk[0]);
      }
    } else {
      hide HexBytes, SpellsAll;
      FirstPair(digits, data, [half] + junk);
      HalfPairFails(digits[2..], data[1..], half, junk);
    }
  }

  /** Half a pair of digits makes a line bad. */
  lemma {:induction false} HalfPairBad(text: seq<byte>, blank: seq<Utf8.scalar>, digits: seq<byte>, half: byte,
                                       junk: seq<byte>, data: seq<byte>)
    requires |text| >= 4 && text[0] in {'<' as int, '>' as int}
    requires Select(text[2..], NotSpace) == Utf8.EncodeAll(blank) + (digits + ([half] + junk))
    requires Blank(blank) && SpellsAll(digits, data) && IsDigit(half) && StartsNoDigit(junk)
    ensures ParseMsg(text) == Failure(BadData)
  {
    hide Select, SpaceLen;
    var s := digits + ([half] + junk);
    if data != [] {
      assert Spells(digits[2 * 0], data[0] / 16) && s[0] == digits[0];
    } else {
      assert s[0] == half;
    }
    DigitIsNoSpace(s);
    BlanksSkipped(blank, s);
    HalfPairFails(digits, data, half, junk);
  }

  // ---------------------------------------------------------------- lines

  /**
   One line of a trace, ended by a newline with or without a carriage return: an empty one is skipped,
   a good one is numbered, and a bad one is an error of its own that the next read does not see.
   */
  lemma {:induction false} LineEndings(line: seq<byte>, cr: bool, rest: seq<byte>, ts: nat)
    requires NEWLINE !in line && |line| < 65535
    requires !cr ==> line == [] || line[|line| - 1] != 0x0D
    ensures var s := line + (if cr then [0x0D, 0x0A] else [0x0A]) + rest;
            ReadStep(Reading(s, None, ts))
            == if line == [] then ReadStep(Reading(rest, None, ts))
               else
                 match ParseMsg(line)
                 case Failure(e) => (Failure(e), Reading(rest, None, ts))
                 case Success((dir, data)) => (Success(Msg(dir, ts, data)), Reading(rest, None, ts + 1))
  {
    hide ParseMsg, IndexByte;
    var whole := if cr then line + [CARRIAGE_RETURN] else line;
    var s := line + (if cr then [CARRIAGE_RETURN, NEWLINE] else [NEWLINE]) + rest;
    assert s == whole + [NEWLINE] + rest;
    FirstNewline(whole, rest);
    assert s[..|whole|] == whole && s[|whole| + 1..] == rest;
    assert DropCR(whole) == line;
  }

  /** The last line need not be ended. */
  lemma {:induction false} LastLine(line: seq<byte>, ts: nat)
    requires line != [] && NEWLINE !in line && |line| < 65536 && line[|line| - 1] != 0x0D
    ensures ReadStep(Reading(line, None, ts))
         == match ParseMsg(line)
            case Failure(e) => (Failure(e), Reading([], None, ts))
            case Success((dir, data)) => (Success(Msg(dir, ts, data)), Reading([], None, ts + 1))
  {
    hide ParseMsg, IndexByte;
    NoNewline(line);
    assert line[..|line|] == line && line[|line|..] == [];
  }

  lemma {:induction false} NoNewline(line: seq<byte>)
    requires NEWLINE !in line
    ensures IndexByte(line, NEWLINE) == |line|
  {
    if line != [] {
      NoNewline(line[1..]);
    }
  }
}
