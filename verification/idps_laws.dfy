/** Which token lists survive their one-byte counts and lengths (lingo-general/general.go). */
module IdpsLaws {
  import opened Bytes
  import opened Sequences
  import opened Idps

  /** The sizes that the token types themselves fix. */
  predicate Layout(v: FIDTokenValue) {
    match v.token
    case BundleSeedIDPref(seed) => |seed| == 11
    case ScreenInfo(sizes, _, _) => |sizes| == 6
    case _ => true
  }

  predicate HasForm(v: FIDTokenValue) {
    !v.token.AccInfo? && !v.token.EAProtocol?
  }

  /** The token fits its length byte. */
  predicate Small(v: FIDTokenValue)
    requires HasForm(v)
  {
    |FormatToken(v).value| <= 255
  }

  /** All that is cut off is zero, and read back as the zeros that stand in for missing bytes. */
  predicate Refills(v: FIDTokenValue) {
    match v.token
    case Identify(lingoes, options, id) =>
      248 <= |lingoes| <= 255 && lingoes == Zeros(|lingoes|) && options == 0 && id == 0
    case _ => false
  }

  predicate ComesBack(values: seq<FIDTokenValue>) {
    MarshalList(values, FormatToken).Success? &&
    UnmarshalList(MarshalList(values, FormatToken).value, ParseToken) == Success(values)
  }

  // ---------------------------------------------------------------- one token

  lemma ParsedTagged(s: seq<byte>)
    ensures ParseToken(s).Success? ==> Tagged(ParseToken(s).value)
  {
  }

  lemma {:induction false} SmallExactly(v: FIDTokenValue)
    requires Layout(v) && HasForm(v) && Small(v)
    ensures ParseToken(FormatToken(v).value) == Success(v) <==> Tagged(v)
  {
    if Tagged(v) {
      TokenRoundTrip(v);
    } else {
      ParsedTagged(FormatToken(v).value);
    }
  }

  /** The four bytes of zero. */
  lemma ZeroWord()
    ensures BigEndian(0, 4) == Zeros(4)
  {
    assert BigEndian(0, 1) == BigEndian(0, 0) + [0];
    assert BigEndian(0, 2) == BigEndian(0, 1) + [0];
    assert BigEndian(0, 3) == BigEndian(0, 2) + [0];
  }

  /** An identify token whose length byte has wrapped to `n`, read from its first `n` bytes. */
  lemma {:induction false} CutIdentify(v: FIDTokenValue, n: nat)
    requires v.token.Identify? && Tagged(v) && |FormatToken(v).value| > 255 && n == |FormatToken(v).value| % 0x100
    ensures ParseToken(FormatToken(v).value[..n]) == Success(v) <==> Refills(v)
  {
    var b, k := FormatToken(v).value, |v.token.accLingoes|;
    assert |b| == k + 11;
    if n >= 3 {
      assert b[..n][2..][0] == k % 0x100;
      if k <= 255 {
        assert n == k - 245 && |b[..n][2..]| - 1 < k;
        assert ParseIdentify(b[..n][2..]) == Success(Identify(Zeros(k), 0, 0));
      } else {
        assert ParseIdentify(b[..n][2..]).value.accLingoes != v.token.accLingoes;
      }
    } else if n == 2 {
      assert b[..n][2..] == [];
    }
  }

  /** A token that is too long comes back only if it is such an identify token. */
  lemma {:induction false} OversizeExactly(v: FIDTokenValue, n: nat)
    requires Layout(v) && HasForm(v) && !Small(v) && n == |FormatToken(v).value| % 0x100
    ensures ParseToken(FormatToken(v).value[..n]) == Success(v) <==> Tagged(v) && Refills(v)
  {
    var b := FormatToken(v).value;
    ParsedTagged(b[..n]);
    if Tagged(v) {
      match v.token
      case Identify(_, _, _) =>
        CutIdentify(v, n);
      case Raw(bytes) =>
        assert n >= 2 ==> ParseToken(b[..n]) == Success(FIDTokenValue(v.id, Raw(b[..n][2..])));
      case _ =>
    }
  }

  // ---------------------------------------------------------------- whole lists

  /** Every token is tagged as its kind and fits its length byte; the last may also be one that refills. */
  predicate Good(values: seq<FIDTokenValue>) {
    forall i :: 0 <= i < |values| ==>
      HasForm(values[i]) && Tagged(values[i]) && (Small(values[i]) || (i == |values| - 1 && Refills(values[i])))
  }

  lemma GoodCons(values: seq<FIDTokenValue>)
    requires values != []
    ensures Good(values) <==>
      HasForm(values[0]) && Tagged(values[0]) && (Small(values[0]) || (|values| == 1 && Refills(values[0]))) &&
      Good(values[1..])
  {
    var later := values[1..];
    assert forall i :: 0 < i < |values| ==> values[i] == later[i - 1];
    assert forall i :: 0 <= i < |later| ==> later[i] == values[i + 1];
  }

  /** The first token takes as many bytes as its length byte says. */
  lemma {:induction false} SplitFirst(b: seq<byte>, tail: seq<byte>, count: nat)
    requires count >= 1
    ensures var n := |b| % 0x100;
            Split([n] + b + tail, count, ParseToken)
            == match ParseToken(b[..n])
               case Failure(e) => Failure(e)
               case Success(x) =>
                 match Split(b[n..] + tail, count - 1, ParseToken)
                 case Failure(e) => Failure(e)
                 case Success(rest) => Success([x] + rest)
  {
    hide ParseToken;
    var n := |b| % 0x100;
    var s := [n] + b + tail;
    assert s[1..1 + n] == b[..n] && s[1 + n..] == b[n..] + tail;
  }

  /** Behind a token that was cut short the next length byte is zero, and no token is that short. */
  lemma {:induction false} NothingBehindRefill(v: FIDTokenValue, n: nat, tail: seq<byte>, count: nat)
    requires Refills(v) && Tagged(v) && n == |FormatToken(v).value| % 0x100 && count >= 1
    ensures n < |FormatToken(v).value| && Split(FormatToken(v).value[n..] + tail, count, ParseToken) == Failure(Short)
  {
    var b, k := FormatToken(v).value, |v.token.accLingoes|;
    ZeroWord();
    assert b[n] == 0;
    var s := b[n..] + tail;
    assert s[0] == 0 && s[1..1] == [];
  }

  lemma {:induction false} JoinCons(values: seq<FIDTokenValue>)
    requires values != [] && HasForm(values[0]) && Join(values[1..], FormatToken).Success?
    ensures FormatToken(values[0]).Success?
    ensures var b := FormatToken(values[0]).value;
            Join(values, FormatToken) == Success([|b| % 0x100] + b + Join(values[1..], FormatToken).value)
    ensures |values| == 1 ==> Join(values[1..], FormatToken).value == []
  {
  }

  lemma {:induction false} SplitExactly(values: seq<FIDTokenValue>)
    requires forall i :: 0 <= i < |values| ==> Layout(values[i]) && HasForm(values[i])
    ensures Join(values, FormatToken).Success?
    ensures Split(Join(values, FormatToken).value, |values|, ParseToken) == Success(values) <==> Good(values)
    decreases values
  {
    if values != [] {
      hide Split, Join, Good, HasForm, Layout, FormatToken, ParseToken;
      var v, others := values[0], values[1..];
      SplitExactly(others);
      GoodCons(values);
      JoinCons(values);
      var b, tail := FormatToken(v).value, Join(others, FormatToken).value;
      SplitFirst(b, tail, |values|);
      assert values == [v] + others;
      FirstDecides(v, others, tail);
    }
  }

  lemma {:induction false} FirstDecides(v: FIDTokenValue, others: seq<FIDTokenValue>, tail: seq<byte>)
    requires Layout(v) && HasForm(v)
    requires others == [] ==> tail == []
    ensures var b := FormatToken(v).value;
            var n := |b| % 0x100;
            var parsed := ParseToken(b[..n]);
            (parsed.Success? && Split(b[n..] + tail, |others|, ParseToken).Success? &&
             [parsed.value] + Split(b[n..] + tail, |others|, ParseToken).value == [v] + others)
            <==> Tagged(v) &&
                 (if Small(v) then Split(tail, |others|, ParseToken) == Success(others) else others == [] && Refills(v))
  {
    hide ParseToken, Split;
    var b := FormatToken(v).value;
    var n := |b| % 0x100;
    var parsed, split := ParseToken(b[..n]), Split(b[n..] + tail, |others|, ParseToken);
    if parsed.Success? && split.Success? {
      ConsEqual(parsed.value, split.value, v, others);
    }
    if Small(v) {
      assert b[..n] == b && b[n..] + tail == tail;
      SmallExactly(v);
    } else {
      OversizeExactly(v, n);
      if others == [] {
        SplitNone(b[n..] + tail);
      } else if Tagged(v) && Refills(v) {
        NothingBehindRefill(v, n, tail, |others|);
      }
    }
  }

  lemma SplitNone(s: seq<byte>)
    ensures Split(s, 0, ParseToken) == Success([])
  {
  }

  /**
   A token list comes back as it was exactly when it has at most 255 tokens, each of a kind that has a
   binary form and under the id of its kind, and none is longer than 255 bytes; except that the last
   may be an identify token of 248 to 255 zeros and no options, which reading fills up again.
   */
  lemma {:induction false} TokensRoundTripExactly(values: seq<FIDTokenValue>)
    requires forall i :: 0 <= i < |values| ==> Layout(values[i])
    ensures ComesBack(values) <==> |values| <= 255 && Good(values)
  {
    hide Split;
    JoinSucceedsExactly(values, FormatToken);
    if i :| 0 <= i < |values| && !HasForm(values[i]) {
      assert FormatToken(values[i]).Failure?;
    } else {
      SplitExactly(values);
      var joined := Join(values, FormatToken).value;
      var s := [|values| % 0x100] + joined;
      assert s[1..] == joined && MarshalList(values, FormatToken) == Success(s);
      SplitCount(joined, s[0], ParseToken);
    }
  }

  // ---------------------------------------------------------------- what follows

  /** In particular tokens of at most 255 bytes come back, and so do identify tokens of up to 244 lingoes. */
  lemma {:induction false} TokensRoundTrip(values: seq<FIDTokenValue>)
    requires |values| <= 255 && forall i :: 0 <= i < |values| ==> Portable(values[i])
    ensures ComesBack(values)
  {
    forall i | 0 <= i < |values| ensures HasForm(values[i]) && Small(values[i]) {
      TokenRoundTrip(values[i]);
    }
    TokensRoundTripExactly(values);
  }

  /** More than 255 tokens never do. */
  lemma {:induction false} TooManyTokens(values: seq<FIDTokenValue>)
    requires |values| > 255
    ensures !ComesBack(values)
  {
    if MarshalList(values, FormatToken).Success? {
      var s := MarshalList(values, FormatToken).value;
      SplitCount(s[1..], s[0], ParseToken);
    }
  }

  /** One identify token comes back with any lingoes up to 244 of them, and from 248 to 255 if all is zero. */
  lemma {:induction false} LingoesExactly(v: FIDTokenValue)
    requires v.token.Identify? && Tagged(v)
    ensures ComesBack([v]) <==> |v.token.accLingoes| <= 244 || Refills(v)
  {
    TokensRoundTripExactly([v]);
    assert |FormatToken(v).value| == |v.token.accLingoes| + 11;
    assert Good([v]) <==> Small(v) || Refills(v);
  }

  /** Just above the bound the length byte says so little that reading fails. */
  lemma {:induction false} TooManyLingoes(v: FIDTokenValue)
    requires v.token.Identify? && v.id == TokenID(0, 0) && 245 <= |v.token.accLingoes| <= 247
    ensures MarshalList([v], FormatToken).Success?
    ensures UnmarshalList(MarshalList([v], FormatToken).value, ParseToken) == Failure(Short)
  {
    var b := FormatToken(v).value;
    assert |b| == |v.token.accLingoes| + 11;
    assert [v][1..] == [];
    assert Join([v][1..], FormatToken) == Success([]);
    SplitFirst(b, [], 1);
    assert ([1] + ([|b| % 0x100] + b + []))[1..] == [|b| % 0x100] + b + [];
  }

  /** A list can be sent exactly when none of its tokens is of the two kinds without a binary form. */
  lemma MarshalsExactly(values: seq<FIDTokenValue>)
    ensures MarshalList(values, FormatToken).Success? <==> forall i :: 0 <= i < |values| ==> HasForm(values[i])
  {
    JoinSucceedsExactly(values, FormatToken);
    assert forall i :: 0 <= i < |values| ==> (FormatToken(values[i]).Success? <==> HasForm(values[i]));
  }
}
