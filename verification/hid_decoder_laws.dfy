/** What the decoder returns on any input, and that it undoes the encoder even after an aborted frame. */
module HidDecoderLaws {
  import opened Bytes
  import opened Hid
  import opened HidDecoder
  import HidLaws

  // ---------------------------------------------------------------- raw reports

  /** A report survives the raw form exactly when its data is neither empty nor too long for the buffer. */
  lemma RawRoundTripExactly(report: Report)
    ensures RawRead(RawWrite(report)) == Got(report) <==> 1 <= |report.data| <= MAX_RAW_SIZE - 2
  {
    var raw := RawWrite(report);
    assert raw[2..] == report.data;
    if 1 <= |report.data| <= MAX_RAW_SIZE - 2 {
      assert raw[2..|raw|] == report.data;
    }
  }

  /** The bytes behind the first two of each message, one message after the other. */
  function Bodies(messages: seq<seq<byte>>): seq<byte>
    requires forall i :: 0 <= i < |messages| ==> |messages[i]| >= 2
  {
    if messages == [] then [] else messages[0][2..] + Bodies(messages[1..])
  }

  function Messages(reports: seq<Report>): (messages: seq<seq<byte>>)
    ensures |messages| == |reports| && forall i :: 0 <= i < |messages| ==> messages[i] == RawWrite(reports[i])
  {
    seq(|reports|, i requires 0 <= i < |reports| => RawWrite(reports[i]))
  }

  lemma {:induction false} BodiesAreContents(reports: seq<Report>)
    ensures forall i :: 0 <= i < |reports| ==> |Messages(reports)[i]| >= 2
    ensures Bodies(Messages(reports)) == HidLaws.Contents(reports)
  {
    if reports != [] {
      BodiesAreContents(reports[1..]);
      assert Messages(reports)[1..] == Messages(reports[1..]);
      assert RawWrite(reports[0])[2..] == reports[0].data;
    }
  }

  /** The link control of message `i` of `n`. */
  function LinkByte(i: nat, n: nat): byte {
    if n == 1 then 0x00 else if i == 0 then 0x02 else if i + 1 < n then 0x03 else 0x01
  }

  /**
   A message with `left` bytes still to be sent: the id of the entry that is picked for them, a link
   control, and as many bytes as that entry's payload.
   */
  predicate IsMessage(defs: seq<ReportDef>, side: ReportDir, message: seq<byte>, link: byte, left: int) {
    |message| >= 3 && message[1] == link &&
    exists k: nat :: k < |defs| && HidLaws.IsPicked(defs, left, side, k) &&
                     message[0] == defs[k].id % 0x100 && |message| == 2 + (defs[k].len - 1)
  }

  /** The messages of a frame of `size` bytes. */
  predicate AreMessages(defs: seq<ReportDef>, side: ReportDir, messages: seq<seq<byte>>, size: nat) {
    messages != [] && (forall i :: 0 <= i < |messages| ==> |messages[i]| >= 2) &&
    forall i :: 0 <= i < |messages| ==>
      IsMessage(defs, side, messages[i], LinkByte(i, |messages|), size - |Bodies(messages[..i])|)
  }

  /**
   The link controls are 0 for a single message, and otherwise 2, then threes, then 1; and each message
   is of the entry picked for what the ones before it left over.
   */
  lemma MessagesOnTheWire(defs: seq<ReportDef>, side: ReportDir, data: seq<byte>)
    requires Usable(defs, side) && HasEntry(defs, side) && data != []
    ensures CanSend(defs, side, |data|)
    ensures AreMessages(defs, side, Messages(Fragment(defs, side, data, 0)), |data|)
  {
    hide *;
    HidLaws.FragmentEntries(defs, side, data, 0);
    HidLaws.FragmentGrammar(defs, side, data);
    HidLaws.FragmentSizes(defs, side, data, 0);
    var reports := Fragment(defs, side, data, 0);
    assert forall r :: r in reports ==> |r.data| >= 1;
    MessagesOf(defs, side, reports, |data|);
  }

  lemma {:induction false} MessagesOf(defs: seq<ReportDef>, side: ReportDir, reports: seq<Report>, size: nat)
    requires HidLaws.Grammar(reports) && HidLaws.AllOfPicked(defs, side, reports, size)
    requires forall r :: r in reports ==> |r.data| >= 1
    ensures AreMessages(defs, side, Messages(reports), size)
  {
    hide HidLaws.Grammar, HidLaws.AllOfPicked, IsMessage, Bodies, LinkByte, RawWrite;
    GrammarMeans(reports);
    BodiesAreContents(reports);
    forall i | 0 <= i < |reports|
      ensures IsMessage(defs, side, Messages(reports)[i], LinkByte(i, |reports|),
                        size - |Bodies(Messages(reports)[..i])|)
    {
      assert reports[i] in reports;
      MessageOf(defs, side, reports, size, i);
    }
  }

  lemma {:induction false} GrammarMeans(reports: seq<Report>)
    requires HidLaws.Grammar(reports)
    ensures reports != [] && forall i :: 0 <= i < |reports| ==> reports[i].linkControl == LinkByte(i, |reports|)
  {
  }

  lemma {:induction false} MessageOf(defs: seq<ReportDef>, side: ReportDir, reports: seq<Report>, left: int, i: nat)
    requires i < |reports| && HidLaws.AllOfPicked(defs, side, reports, left)
    requires |reports[i].data| >= 1
    ensures IsMessage(defs, side, Messages(reports)[i], reports[i].linkControl,
                      left - |Bodies(Messages(reports)[..i])|)
  {
    hide HidLaws.IsPicked, HidLaws.Contents, Bodies;
    assert Messages(reports)[..i] == Messages(reports[..i]);
    BodiesAreContents(reports[..i]);
    assert HidLaws.OfPicked(defs, side, reports[i], left - |HidLaws.Contents(reports[..i])|);
  }

  /** Their bytes are those of the frame, and zeros up to the end of the last message. */
  lemma {:induction false} BytesOnTheWire(defs: seq<ReportDef>, side: ReportDir, data: seq<byte>)
    requires Usable(defs, side) && HasEntry(defs, side)
    ensures var messages := Messages(Fragment(defs, side, data, 0));
            (forall i :: 0 <= i < |messages| ==> |messages[i]| >= 2) &&
            data <= Bodies(messages) && forall k :: |data| <= k < |Bodies(messages)| ==> Bodies(messages)[k] == 0
  {
    HidLaws.FragmentContents(defs, side, data, 0);
    BodiesAreContents(Fragment(defs, side, data, 0));
    hide Fragment, HidLaws.Contents, Bodies, Usable, HasEntry;
  }

  /** A message as it is read: id, link control, and what of the rest fits the buffer of 1024 bytes. */
  lemma RawReadMeans(id: byte, link: byte, data: seq<byte>)
    ensures RawRead([id, link] + data)
         == if data == [] then Failed(NoProgress) else Got(Report(id, link, data[..Min(|data|, 1022)]))
  {
    var message := [id, link] + data;
    assert message[2..Min(|message|, MAX_RAW_SIZE)] == data[..Min(|message|, MAX_RAW_SIZE) - 2] || data == [];
  }

  // ---------------------------------------------------------------- any input

  /** The link control says that this report completes a frame, or that it starts the buffer afresh. */
  predicate Completes(r: ReadResult) {
    r.Got? && r.report.linkControl in {0x00, 0x01}
  }

  predicate Opens(r: ReadResult) {
    r.Got? && r.report.linkControl in {0x00, 0x02}
  }

  /** A report that the decoder takes in without completing a frame. */
  predicate Passes(defs: seq<ReportDef>, r: ReadResult) {
    Known(defs, r) && !Completes(r)
  }

  predicate FirstEntry(defs: seq<ReportDef>, id: int, i: nat) {
    i < |defs| && defs[i].id == id && forall j :: 0 <= j < i ==> defs[j].id != id
  }

  /** The longest prefix of the data that is no longer than the first entry with the report's id allows. */
  predicate Allowed(defs: seq<ReportDef>, report: Report, part: seq<byte>) {
    exists i: nat :: i < |defs| && FirstEntry(defs, report.id, i) &&
      part <= report.data && |part| == Min(|report.data|, defs[i].len - 1)
  }

  /** What a report contributes to the frame; with any other link control, nothing. */
  predicate Contributes(defs: seq<ReportDef>, r: ReadResult, part: seq<byte>) {
    r.Got? && if r.report.linkControl <= 0x03 then Allowed(defs, r.report, part) else part == []
  }

  predicate AllContribute(defs: seq<ReportDef>, inputs: seq<ReadResult>, parts: seq<seq<byte>>) {
    |parts| == |inputs| && forall i :: 0 <= i < |parts| ==> Contributes(defs, inputs[i], parts[i])
  }

  function Flatten(parts: seq<seq<byte>>): seq<byte> {
    if parts == [] then [] else parts[0] + Flatten(parts[1..])
  }

  /** There is only one such prefix. */
  lemma {:induction false} ContributionUnique(defs: seq<ReportDef>, r: ReadResult, a: seq<byte>, b: seq<byte>)
    requires Contributes(defs, r, a) && Contributes(defs, r, b)
    ensures a == b
  {
    if r.report.linkControl <= 0x03 {
      var i: nat :| i < |defs| && FirstEntry(defs, r.report.id, i) && |a| == Min(|r.report.data|, defs[i].len - 1);
      var j: nat :| j < |defs| && FirstEntry(defs, r.report.id, j) && |b| == Min(|r.report.data|, defs[j].len - 1);
      assert i == j;
    }
  }

  lemma {:induction false} FoundIsFirst(defs: seq<ReportDef>, id: int) returns (i: nat)
    requires Found(defs, id).Some?
    ensures FirstEntry(defs, id, i) && Found(defs, id) == Some(defs[i])
  {
    if defs[0].id == id {
      i := 0;
    } else {
      var k := FoundIsFirst(defs[1..], id);
      i := k + 1;
    }
  }

  lemma {:induction false} ClipAllowed(defs: seq<ReportDef>, r: ReadResult)
    requires Readable(defs) && Known(defs, r)
    ensures Allowed(defs, r.report, Clip(defs, r))
  {
    var i := FoundIsFirst(defs, r.report.id);
    FoundMember(defs, r.report.id);
  }

  /** What one recognised report does to the decoder's buffer. */
  lemma {:induction false} AbsorbMeans(defs: seq<ReportDef>, buf: seq<byte>, r: ReadResult) returns (part: seq<byte>)
    requires Readable(defs) && Known(defs, r)
    ensures Contributes(defs, r, part) && Absorb(defs, buf, r) == if Opens(r) then part else buf + part
  {
    ClipAllowed(defs, r);
    hide Clip, Allowed, Known;
    part := if r.report.linkControl <= 0x03 then Clip(defs, r) else [];
    assert buf + [] == buf;
  }

  /** `s` is the last report of `inputs` that starts the buffer afresh. */
  predicate LastRestart(inputs: seq<ReadResult>, s: nat) {
    s < |inputs| && Opens(inputs[s]) && forall i :: s < i < |inputs| ==> !Opens(inputs[i])
  }

  /** `taken` is what the decoder reads for one frame: reports that pass, and one that ends it. */
  predicate OneFrame(defs: seq<ReportDef>, taken: seq<ReadResult>) {
    |taken| >= 1 && Known(defs, taken[|taken| - 1]) && Completes(taken[|taken| - 1]) &&
    forall i :: 0 <= i < |taken| - 1 ==> Passes(defs, taken[i])
  }

  /** The decoder stops at the first report that ends a frame or cannot be taken in, or at the end of input. */
  lemma {:induction false} DecodeStops(defs: seq<ReportDef>, buf: seq<byte>, inputs: seq<ReadResult>)
    requires Readable(defs)
    ensures match Decode(defs, buf, inputs)
            case Frame(_, n) => OneFrame(defs, inputs[..n])
            case Broken(e, n) =>
              if n == |inputs| && (forall i :: 0 <= i < n ==> Passes(defs, inputs[i])) then e == EOF
              else
                n >= 1 && (forall i :: 0 <= i < n - 1 ==> Passes(defs, inputs[i])) &&
                !Known(defs, inputs[n - 1]) &&
                e == if inputs[n - 1].Failed? then inputs[n - 1].error else ReportIdNotFound
    decreases inputs
  {
    if inputs != [] && Passes(defs, inputs[0]) {
      DecodeStops(defs, Absorb(defs, buf, inputs[0]), inputs[1..]);
      var n := Decode(defs, buf, inputs).used;
      assert forall i :: 1 <= i < n ==> inputs[i] == inputs[1..][i - 1];
    }
  }

  /** One turn: the first report ends the frame, or it contributes and the rest decides. */
  lemma {:induction false} DecodeTurn(defs: seq<ReportDef>, buf: seq<byte>, inputs: seq<ReadResult>)
    returns (part: seq<byte>)
    requires Readable(defs) && inputs != [] && Known(defs, inputs[0])
    ensures Contributes(defs, inputs[0], part)
    ensures var buf' := if Opens(inputs[0]) then part else buf + part;
            Decode(defs, buf, inputs)
            == if Completes(inputs[0]) then Frame(buf', 1) else Decode(defs, buf', inputs[1..]).After(1)
  {
    part := AbsorbMeans(defs, buf, inputs[0]);
    hide Absorb, Known, Contributes;
  }

  lemma {:induction false} Later(defs: seq<ReportDef>, inputs: seq<ReadResult>, n: nat)
    requires n <= |inputs| && OneFrame(defs, inputs[..n])
    ensures Known(defs, inputs[0])
    ensures n == 1 ==> Completes(inputs[0])
    ensures n > 1 ==> !Completes(inputs[0]) && inputs[1..][..n - 1] == inputs[..n][1..]
    ensures n > 1 ==> OneFrame(defs, inputs[1..][..n - 1])
  {
    var taken := inputs[..n];
    assert taken[0] == inputs[0];
    if n > 1 {
      var rest := inputs[1..][..n - 1];
      assert forall i :: 0 <= i < n - 1 ==> rest[i] == taken[i + 1];
    }
  }

  /**
   Without a report that restarts the buffer, the frame is what was buffered and then, of each report
   in order, the longest prefix of its data that its entry allows.
   */
  lemma {:induction false} DecodeAppends(defs: seq<ReportDef>, buf: seq<byte>, inputs: seq<ReadResult>, n: nat)
    returns (parts: seq<seq<byte>>)
    requires Readable(defs) && n <= |inputs| && OneFrame(defs, inputs[..n])
    requires forall i :: 0 <= i < n ==> !Opens(inputs[i])
    ensures AllContribute(defs, inputs[..n], parts)
    ensures Decode(defs, buf, inputs) == Frame(buf + Flatten(parts), n)
    decreases inputs
  {
    Later(defs, inputs, n);
    var part := DecodeTurn(defs, buf, inputs);
    hide Decode, Contributes, OneFrame, Opens, Completes;
    if n > 1 {
      var later := DecodeAppends(defs, buf + part, inputs[1..], n - 1);
      parts := [part] + later;
      assert forall i :: 0 < i < n ==> inputs[..n][i] == inputs[1..][..n - 1][i - 1] && parts[i] == later[i - 1];
      assert parts[1..] == later;
      AppendAssociative(buf, part, Flatten(later));
    } else {
      parts := [part];
      FlattenOne(part);
    }
  }

  lemma FlattenOne(part: seq<byte>)
    ensures Flatten([part]) == part
  {
    assert [part][1..] == [];
  }

  /** Otherwise it is made of those prefixes since the last report that restarts the buffer. */
  lemma {:induction false} DecodeSince(defs: seq<ReportDef>, buf: seq<byte>, inputs: seq<ReadResult>, n: nat, s: nat)
    returns (parts: seq<seq<byte>>)
    requires Readable(defs) && n <= |inputs| && OneFrame(defs, inputs[..n])
    requires LastRestart(inputs[..n], s)
    ensures AllContribute(defs, inputs[s..n], parts)
    ensures Decode(defs, buf, inputs) == Frame(Flatten(parts), n)
    decreases inputs
  {
    Later(defs, inputs, n);
    var part := DecodeTurn(defs, buf, inputs);
    assert inputs[..n][s] == inputs[s];
    assert forall i :: s < i < n ==> inputs[..n][i] == inputs[i];
    hide Decode, Contributes, OneFrame, Opens, Completes;
    if s > 0 {
      var rest := inputs[1..][..n - 1];
      assert rest[s - 1] == inputs[s] && forall i :: s - 1 < i < n - 1 ==> rest[i] == inputs[..n][i + 1];
      parts := DecodeSince(defs, if Opens(inputs[0]) then part else buf + part, inputs[1..], n - 1, s - 1);
      assert inputs[1..][s - 1..n - 1] == inputs[s..n];
    } else if n > 1 {
      var later := DecodeAppends(defs, part, inputs[1..], n - 1);
      parts := [part] + later;
      assert forall i :: 0 < i < n ==> inputs[0..n][i] == inputs[1..][..n - 1][i - 1] && parts[i] == later[i - 1];
      assert parts[1..] == later;
    } else {
      parts := [part];
      FlattenOne(part);
    }
  }

  /** In particular a lone Done report gives the prefix of its data that the first entry with its id allows. */
  lemma {:induction false} DecodeDone(defs: seq<ReportDef>, buf: seq<byte>, report: Report, rest: seq<ReadResult>,
                                      i: nat)
    requires Readable(defs) && report.linkControl == 0x00 && FirstEntry(defs, report.id, i)
    ensures var d := Decode(defs, buf, [Got(report)] + rest);
            d.Frame? && d.used == 1 && d.frame <= report.data && |d.frame| == Min(|report.data|, defs[i].len - 1)
  {
    FoundMember(defs, report.id);
    assert defs[i] in defs;
    var part := DecodeTurn(defs, buf, [Got(report)] + rest);
    var j: nat :| j < |defs| && FirstEntry(defs, report.id, j) && |part| == Min(|report.data|, defs[j].len - 1);
    assert i == j;
  }

  // ---------------------------------------------------------------- undoing the encoder

  /** Whatever the decoder's table finds for a picked entry's id byte leaves that entry's payload whole. */
  predicate Compatible(defs: seq<ReportDef>, side: ReportDir) {
    forall d :: d in defs && d.dir == side ==>
      Found(defs, d.id % 0x100).Some? && Found(defs, d.id % 0x100).value.MaxPayload() >= d.MaxPayload()
  }

  /** It holds in particular when the ids are distinct and fit a byte. */
  lemma DistinctIdsCompatible(defs: seq<ReportDef>, side: ReportDir)
    requires forall i, j :: 0 <= i < j < |defs| ==> defs[i].id != defs[j].id
    requires forall d :: d in defs ==> 0 <= d.id < 0x100
    ensures Compatible(defs, side)
  {
    forall d | d in defs && d.dir == side
      ensures Found(defs, d.id % 0x100) == Some(d)
    {
      FoundMember(defs, d.id);
    }
  }

  function Offered(reports: seq<Report>): (r: seq<ReadResult>)
    ensures |r| == |reports| && forall i :: 0 <= i < |reports| ==> r[i] == Got(reports[i])
  {
    seq(|reports|, i requires 0 <= i < |reports| => Got(reports[i]))
  }

  /** The first report of a fragmented frame is taken in whole. */
  lemma FirstReport(defs: seq<ReportDef>, side: ReportDir, data: seq<byte>, offset: nat)
    requires Readable(defs) && Usable(defs, side) && HasEntry(defs, side) && Compatible(defs, side) && data != []
    ensures var reports := Fragment(defs, side, data, offset);
            var m := Choice(defs, side, |data|).MaxPayload();
            reports != [] && Known(defs, Got(reports[0])) && Clip(defs, Got(reports[0])) == reports[0].data &&
            reports[0].linkControl == LinkFor(offset, |data| <= m) &&
            reports[1..] == if |data| > m then Fragment(defs, side, data[m..], offset + m) else []
  {
    var d := Choice(defs, side, |data|);
    FoundMember(defs, d.id % 0x100);
    assert |Fragment(defs, side, data, offset)[0].data| == d.MaxPayload();
  }

  /** The decoder's step on the first report `first` of what is left of a frame, before `later`. */
  lemma DecodeFirst(defs: seq<ReportDef>, side: ReportDir, buf: seq<byte>, data: seq<byte>, offset: nat,
                    rest: seq<ReadResult>)
    returns (first: seq<byte>, m: nat)
    requires Readable(defs) && Usable(defs, side) && HasEntry(defs, side) && Compatible(defs, side) && data != []
    ensures m >= 1
    ensures var reports := Fragment(defs, side, data, offset);
            var buf' := if offset == 0 then first else buf + first;
            var decoded := Decode(defs, buf, Offered(reports) + rest);
            if |data| > m then
              var later := Fragment(defs, side, data[m..], offset + m);
              |reports| == 1 + |later| && HidLaws.Contents(reports) == first + HidLaws.Contents(later) &&
              decoded == Decode(defs, buf', Offered(later) + rest).After(1)
            else
              |reports| == 1 && HidLaws.Contents(reports) == first && decoded == Frame(buf', 1)
  {
    hide Decode, Offered, Fragment, HidLaws.Contents, Clip, Known;
    FirstReport(defs, side, data, offset);
    var reports := Fragment(defs, side, data, offset);
    m := Choice(defs, side, |data|).MaxPayload();
    first := reports[0].data;
    OfferedCons(reports, rest);
    DecodeCons(defs, buf, Got(reports[0]), Offered(reports[1..]) + rest);
  }

  /** What follows the first report of a frame is appended, up to the report that ends the frame. */
  lemma {:induction false} DecodeTail(defs: seq<ReportDef>, side: ReportDir, buf: seq<byte>, data: seq<byte>,
                                      offset: nat, rest: seq<ReadResult>)
    requires Readable(defs) && Usable(defs, side) && HasEntry(defs, side) && Compatible(defs, side)
    requires data != [] && offset > 0
    ensures var reports := Fragment(defs, side, data, offset);
            Decode(defs, buf, Offered(reports) + rest) == Frame(buf + HidLaws.Contents(reports), |reports|)
    decreases |data|
  {
    hide Decode, Offered, Fragment, HidLaws.Contents, Usable, HasEntry, Compatible, Readable;
    var first, m := DecodeFirst(defs, side, buf, data, offset, rest);
    if |data| > m {
      DecodeTail(defs, side, buf + first, data[m..], offset + m, rest);
      AppendAssociative(buf, first, HidLaws.Contents(Fragment(defs, side, data[m..], offset + m)));
    }
  }

  /** A whole frame replaces whatever the decoder had buffered. */
  lemma DecodeFragment(defs: seq<ReportDef>, side: ReportDir, buf: seq<byte>, data: seq<byte>, rest: seq<ReadResult>)
    requires Readable(defs) && Usable(defs, side) && HasEntry(defs, side) && Compatible(defs, side) && data != []
    ensures var reports := Fragment(defs, side, data, 0);
            Decode(defs, buf, Offered(reports) + rest) == Frame(HidLaws.Contents(reports), |reports|)
  {
    hide Decode, Offered, Fragment, HidLaws.Contents, Usable, HasEntry, Compatible, Readable;
    var first, m := DecodeFirst(defs, side, buf, data, 0, rest);
    if |data| > m {
      DecodeTail(defs, side, first, data[m..], m, rest);
    }
  }

  lemma DecodeCons(defs: seq<ReportDef>, buf: seq<byte>, r: ReadResult, inputs: seq<ReadResult>)
    requires Readable(defs) && Known(defs, r)
    ensures var buf' := Absorb(defs, buf, r);
            Decode(defs, buf, [r] + inputs) == if Ends(r) then Frame(buf', 1) else Decode(defs, buf', inputs).After(1)
  {
    assert ([r] + inputs)[1..] == inputs;
  }

  lemma OfferedCons(reports: seq<Report>, rest: seq<ReadResult>)
    requires reports != []
    ensures Offered(reports) + rest == [Got(reports[0])] + (Offered(reports[1..]) + rest)
    ensures HidLaws.Contents(reports) == reports[0].data + HidLaws.Contents(reports[1..])
    ensures reports[1..] == [] ==> HidLaws.Contents(reports) == reports[0].data
  {
    if reports[1..] == [] {
      assert HidLaws.Contents(reports[1..]) == [];
    }
  }

  lemma {:induction false} SkipPassing(defs: seq<ReportDef>, buf: seq<byte>, aborted: seq<ReadResult>,
                                       inputs: seq<ReadResult>)
    returns (buf': seq<byte>)
    requires Readable(defs) && forall r :: r in aborted ==> Passes(defs, r)
    ensures Decode(defs, buf, aborted + inputs) == Decode(defs, buf', inputs).After(|aborted|)
    decreases aborted
  {
    if aborted == [] {
      assert aborted + inputs == inputs;
      buf' := buf;
    } else {
      assert (aborted + inputs)[0] == aborted[0] && aborted[0] in aborted;
      assert (aborted + inputs)[1..] == aborted[1..] + inputs;
      buf' := SkipPassing(defs, Absorb(defs, buf, aborted[0]), aborted[1..], inputs);
    }
  }

  /**
   Resynchronisation: after any reports of a frame that was never completed, the next complete frame
   of the encoder comes back as itself and zero padding.
   */
  lemma Resynchronises(defs: seq<ReportDef>, side: ReportDir, buf: seq<byte>, aborted: seq<ReadResult>, data: seq<byte>,
                       rest: seq<ReadResult>)
    requires Readable(defs) && Usable(defs, side) && HasEntry(defs, side) && Compatible(defs, side) && data != []
    requires forall r :: r in aborted ==> Passes(defs, r)
    ensures var reports := Fragment(defs, side, data, 0);
            var contents := HidLaws.Contents(reports);
            |contents| >= |data| &&
            Decode(defs, buf, aborted + (Offered(reports) + rest))
            == Frame(data + Zeros(|contents| - |data|), |aborted| + |reports|)
  {
    var reports := Fragment(defs, side, data, 0);
    var buf' := SkipPassing(defs, buf, aborted, Offered(reports) + rest);
    DecodeFragment(defs, side, buf', data, rest);
    HidLaws.FragmentContents(defs, side, data, 0);
  }
}
