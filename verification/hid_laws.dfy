/** What fragmentation promises: contents, link-control grammar, and the number of reports. */
module HidLaws {
  import opened Bytes
  import opened Hid

  // ---------------------------------------------------------------- Pick

  /**
   Entry `i` is the first of the direction that takes `size` bytes besides its link control; when
   none does, the last of the direction.
   */
  predicate IsPicked(defs: seq<ReportDef>, size: int, dir: ReportDir, i: nat) {
    i < |defs| && defs[i].dir == dir &&
    if defs[i].len - 1 >= size
    then forall j :: 0 <= j < i && defs[j].dir == dir ==> defs[j].len - 1 < size
    else forall j :: 0 <= j < |defs| && defs[j].dir == dir ==> defs[j].len - 1 < size && j <= i
  }

  lemma {:induction false} PickExactly(defs: seq<ReportDef>, size: int, dir: ReportDir, i: nat)
    requires IsPicked(defs, size, dir, i)
    ensures Picked(defs, size, dir) == Some(defs[i])
  {
    PickFromExactly(defs, size, dir, None, i);
  }

  lemma {:induction false} PickFromExactly(defs: seq<ReportDef>, size: int, dir: ReportDir,
                                           sofar: Option<ReportDef>, i: nat)
    requires IsPicked(defs, size, dir, i)
    ensures PickFrom(defs, size, dir, sofar) == Some(defs[i])
  {
    var next := if defs[0].dir == dir then Some(defs[0]) else sofar;
    if i > 0 {
      PickFromExactly(defs[1..], size, dir, next, i - 1);
    } else if !defs[0].Fits(size, dir) {
      PickNone(defs[1..], size, dir, next);
    }
  }

  /** There is such an entry whenever the direction has any. */
  lemma {:induction false} SomePicked(defs: seq<ReportDef>, size: int, dir: ReportDir) returns (i: nat)
    requires HasEntry(defs, dir)
    ensures IsPicked(defs, size, dir, i)
  {
    i := 0;
    while i < |defs| && !(defs[i].dir == dir && defs[i].len - 1 >= size)
      invariant i <= |defs|
      invariant forall j :: 0 <= j < i && defs[j].dir == dir ==> defs[j].len - 1 < size
    {
      i := i + 1;
    }
    if i == |defs| {
      i := LastIndex(defs, dir);
    }
  }

  lemma {:induction false} PickNone(defs: seq<ReportDef>, size: int, dir: ReportDir, sofar: Option<ReportDef>)
    requires forall j :: 0 <= j < |defs| ==> defs[j].dir != dir
    ensures PickFrom(defs, size, dir, sofar) == sofar
  {
    if defs != [] {
      PickNone(defs[1..], size, dir, sofar);
    }
  }

  // ---------------------------------------------------------------- contents and grammar

  function Contents(reports: seq<Report>): seq<byte> {
    if reports == [] then [] else reports[0].data + Contents(reports[1..])
  }

  lemma FragmentUnfold(defs: seq<ReportDef>, side: ReportDir, data: seq<byte>, offset: nat)
    requires Usable(defs, side) && HasEntry(defs, side) && data != []
    ensures var reports := Fragment(defs, side, data, offset);
            var m := Choice(defs, side, |data|).MaxPayload();
            reports != [] && Contents(reports) == reports[0].data + Contents(reports[1..]) &&
            if |data| > m
            then reports[0].data == data[..m] && reports[1..] == Fragment(defs, side, data[m..], offset + m)
            else reports[0].data == data + Zeros(m - |data|) && reports[1..] == []
  {
  }

  /** The reports carry the frame, followed by nothing but zeros. */
  lemma {:induction false} FragmentContents(defs: seq<ReportDef>, side: ReportDir, data: seq<byte>, offset: nat)
    requires Usable(defs, side) && HasEntry(defs, side)
    ensures var contents := Contents(Fragment(defs, side, data, offset));
            |contents| >= |data| && contents == data + Zeros(|contents| - |data|)
    decreases |data|
  {
    if data != [] {
      FragmentUnfold(defs, side, data, offset);
      var m := Choice(defs, side, |data|).MaxPayload();
      var first, others := Fragment(defs, side, data, offset)[0].data, Fragment(defs, side, data, offset)[1..];
      hide Fragment, Usable, HasEntry;
      if |data| > m {
        FragmentContents(defs, side, data[m..], offset + m);
        AppendAssociative(first, data[m..], Zeros(|Contents(others)| - |data[m..]|));
        assert data == data[..m] + data[m..];
      } else {
        assert Contents(others) == [] && first + [] == first;
      }
    }
  }

  /** Done alone, or MoreToFollow, then any number of Continue|MoreToFollow, then Continue. */
  predicate Grammar(reports: seq<Report>) {
    |reports| >= 1 &&
    if |reports| == 1 then reports[0].linkControl == LINK_DONE
    else
      reports[0].linkControl == LINK_MORE_TO_FOLLOW &&
      reports[|reports| - 1].linkControl == LINK_CONTINUE &&
      forall i :: 0 < i < |reports| - 1 ==> reports[i].linkControl == LINK_CONTINUE_MORE
  }

  lemma {:induction false} Tail(defs: seq<ReportDef>, side: ReportDir, data: seq<byte>, offset: nat)
    requires Usable(defs, side) && HasEntry(defs, side) && data != [] && offset > 0
    ensures var reports := Fragment(defs, side, data, offset);
            |reports| >= 1 && reports[|reports| - 1].linkControl == LINK_CONTINUE &&
            forall i :: 0 <= i < |reports| - 1 ==> reports[i].linkControl == LINK_CONTINUE_MORE
    decreases |data|
  {
    var m := Choice(defs, side, |data|).MaxPayload();
    if |data| > m {
      Tail(defs, side, data[m..], offset + m);
      var reports, later := Fragment(defs, side, data, offset), Fragment(defs, side, data[m..], offset + m);
      hide Fragment, Usable, HasEntry;
      assert forall i :: 0 < i < |reports| ==> reports[i] == later[i - 1];
    }
  }

  /** The link controls of a non-empty frame follow the grammar; an empty frame sends nothing. */
  lemma FragmentGrammar(defs: seq<ReportDef>, side: ReportDir, data: seq<byte>)
    requires Usable(defs, side) && HasEntry(defs, side)
    ensures if data == [] then Fragment(defs, side, data, 0) == [] else Grammar(Fragment(defs, side, data, 0))
  {
    if data != [] {
      var m := Choice(defs, side, |data|).MaxPayload();
      if |data| > m {
        Tail(defs, side, data[m..], m);
      }
    }
  }

  /** Every report is as long as a table entry of the right direction says. */
  lemma {:induction false} FragmentSizes(defs: seq<ReportDef>, side: ReportDir, data: seq<byte>, offset: nat)
    requires Usable(defs, side) && HasEntry(defs, side)
    ensures forall r :: r in Fragment(defs, side, data, offset) ==>
      exists d :: d in defs && d.dir == side && r.id == d.id % 0x100 && |r.data| == d.MaxPayload() >= 1
    decreases |data|
  {
    if data != [] {
      var d := Choice(defs, side, |data|);
      if |data| > d.MaxPayload() {
        FragmentSizes(defs, side, data[d.MaxPayload()..], offset + d.MaxPayload());
      }
    }
  }

  /** A report of the entry that is picked when `left` bytes are still to be sent. */
  predicate OfPicked(defs: seq<ReportDef>, side: ReportDir, r: Report, left: int) {
    exists k: nat :: k < |defs| && IsPicked(defs, left, side, k) &&
                     r.id == defs[k].id % 0x100 && |r.data| == defs[k].len - 1
  }

  predicate AllOfPicked(defs: seq<ReportDef>, side: ReportDir, reports: seq<Report>, left: int) {
    forall i :: 0 <= i < |reports| ==> OfPicked(defs, side, reports[i], left - |Contents(reports[..i])|)
  }

  lemma {:induction false} OfPickedCons(defs: seq<ReportDef>, side: ReportDir, reports: seq<Report>, left: int)
    requires reports != [] && OfPicked(defs, side, reports[0], left)
    requires AllOfPicked(defs, side, reports[1..], left - |reports[0].data|)
    ensures AllOfPicked(defs, side, reports, left)
  {
    hide OfPicked, Contents;
    forall i | 0 <= i < |reports|
      ensures OfPicked(defs, side, reports[i], left - |Contents(reports[..i])|)
    {
      if i > 0 {
        ContentsPrefix(reports, i);
        assert reports[i] == reports[1..][i - 1];
      } else {
        NoContents();
        assert reports[..0] == [];
      }
    }
  }

  lemma {:induction false} ContentsPrefix(reports: seq<Report>, i: nat)
    requires 0 < i <= |reports|
    ensures |Contents(reports[..i])| == |reports[0].data| + |Contents(reports[1..][..i - 1])|
  {
    assert reports[..i][1..] == reports[1..][..i - 1];
  }

  /** Every report is of the entry picked for the bytes that the reports before it left over. */
  lemma {:induction false} FragmentEntries(defs: seq<ReportDef>, side: ReportDir, data: seq<byte>, offset: nat)
    requires Usable(defs, side) && HasEntry(defs, side)
    ensures CanSend(defs, side, |data|)
    ensures AllOfPicked(defs, side, Fragment(defs, side, data, offset), |data|)
    decreases |data|
  {
    hide *;
    AnySizeSends(defs, side, |data|);
    if data == [] {
      NothingToSend(defs, side, offset);
    } else {
      var reports, m := Fragment(defs, side, data, offset), Choice(defs, side, |data|).MaxPayload();
      FirstOfPicked(defs, side, data, offset);
      FragmentUnfold(defs, side, data, offset);
      if |data| > m {
        FragmentEntries(defs, side, data[m..], offset + m);
      } else {
        NonePicked(defs, side, |data| - m);
      }
      OfPickedCons(defs, side, reports, |data|);
    }
  }

  lemma AnySizeSends(defs: seq<ReportDef>, side: ReportDir, size: nat)
    requires Usable(defs, side) && HasEntry(defs, side)
    ensures CanSend(defs, side, size)
  {
  }

  lemma NothingToSend(defs: seq<ReportDef>, side: ReportDir, offset: nat)
    ensures Fragment(defs, side, [], offset) == [] && AllOfPicked(defs, side, [], 0)
  {
  }

  lemma NonePicked(defs: seq<ReportDef>, side: ReportDir, left: int)
    ensures AllOfPicked(defs, side, [], left)
  {
  }

  lemma NoContents()
    ensures Contents([]) == []
  {
  }

  lemma {:induction false} FirstOfPicked(defs: seq<ReportDef>, side: ReportDir, data: seq<byte>, offset: nat)
    requires Usable(defs, side) && HasEntry(defs, side) && data != []
    ensures var reports := Fragment(defs, side, data, offset);
            reports != [] && OfPicked(defs, side, reports[0], |data|)
  {
    var k := SomePicked(defs, |data|, side);
    PickExactly(defs, |data|, side, k);
    assert Choice(defs, side, |data|) == defs[k];
    hide PickFrom, IsPicked;
  }

  // ---------------------------------------------------------------- how many reports

  function LastIndex(defs: seq<ReportDef>, side: ReportDir): (i: nat)
    requires HasEntry(defs, side)
    ensures LastAt(defs, side, i)
    decreases defs
  {
    var n := |defs| - 1;
    if defs[n].dir == side then n
    else
      assert HasEntry(defs[..n], side) by {
        var d :| d in defs && d.dir == side;
        assert d in defs[..n];
      }
      LastIndex(defs[..n], side)
  }

  /** The payload of the last entry of the direction. */
  function LastSize(defs: seq<ReportDef>, side: ReportDir): (m: nat)
    requires Usable(defs, side) && HasEntry(defs, side)
    ensures m >= 1
  {
    defs[LastIndex(defs, side)].MaxPayload()
  }

  predicate IsLargest(defs: seq<ReportDef>, side: ReportDir, m: int) {
    (exists d :: d in defs && d.dir == side && d.MaxPayload() == m) &&
    forall d :: d in defs && d.dir == side ==> d.MaxPayload() <= m
  }

  /** Pick gives an entry with room exactly when the last one has room or some entry takes all the bytes. */
  lemma PicksRoomExactly(defs: seq<ReportDef>, side: ReportDir, size: nat)
    requires size >= 1 && HasEntry(defs, side)
    ensures var picked := Picked(defs, size, side);
            picked.Some? && (picked.value.MaxPayload() >= 1 <==> CanSend(defs, side, size))
  {
    if Fitting(defs, side, size) {
      PickFits(defs, size, side, None);
    } else {
      PickFallsBack(defs, size, side, None);
    }
  }

  /** A frame that fits the largest entry goes into one report; a longer one starts with the last entry. */
  lemma ChoiceSize(defs: seq<ReportDef>, side: ReportDir, size: nat, largest: nat)
    requires size >= 1 && Usable(defs, side) && HasEntry(defs, side) && IsLargest(defs, side, largest)
    ensures if size <= largest then Choice(defs, side, size).MaxPayload() >= size
            else Choice(defs, side, size).MaxPayload() == LastSize(defs, side) < size
  {
    if size <= largest {
      var d :| d in defs && d.dir == side && d.MaxPayload() == largest;
      var k :| 0 <= k < |defs| && defs[k] == d;
      var i := FirstFit(defs, side, size, k);
      PickExactly(defs, size, side, i);
    } else {
      var i := LastIndex(defs, side);
      PickExactly(defs, size, side, i);
    }
  }

  lemma {:induction false} FirstFit(defs: seq<ReportDef>, side: ReportDir, size: nat, k: nat) returns (i: nat)
    requires k < |defs| && defs[k].Fits(size, side)
    ensures i <= k && defs[i].Fits(size, side) && forall j :: 0 <= j < i ==> !defs[j].Fits(size, side)
  {
    if j :| 0 <= j < k && defs[j].Fits(size, side) {
      i := FirstFit(defs, side, size, j);
    } else {
      i := k;
    }
  }

  /** The number of chunks of at most `m` bytes that `n` bytes need. */
  function Chunks(n: nat, m: nat): nat
    requires m >= 1
  {
    if n == 0 then 0 else if n <= m then 1 else 1 + Chunks(n - m, m)
  }

  /** It is `n` divided by `m`, rounded up. */
  lemma {:induction false} ChunksCeiling(n: nat, m: nat)
    requires m >= 1
    ensures n <= Chunks(n, m) * m < n + m
  {
    if n > m {
      ChunksCeiling(n - m, m);
      assert Chunks(n, m) * m == Chunks(n - m, m) * m + m;
    }
  }

  /** The exact number of reports, for every table: what exceeds the largest entry goes out in last entries. */
  lemma {:induction false} FragmentCount(defs: seq<ReportDef>, side: ReportDir, data: seq<byte>, offset: nat,
                                         largest: nat)
    requires Usable(defs, side) && HasEntry(defs, side) && IsLargest(defs, side, largest) && data != []
    ensures LastSize(defs, side) >= 1
    ensures |Fragment(defs, side, data, offset)|
         == 1 + if |data| <= largest then 0 else Chunks(|data| - largest, LastSize(defs, side))
    decreases |data|
  {
    var m := Choice(defs, side, |data|).MaxPayload();
    var i := LastIndex(defs, side);
    ChoiceSize(defs, side, |data|, largest);
    if |data| > largest {
      FragmentCount(defs, side, data[m..], offset + m, largest);
    }
  }

  /** No way of cutting `n` bytes into chunks of at most `m` needs fewer than `Chunks(n, m)`. */
  lemma {:induction false} ChunksMinimal(chunks: seq<seq<byte>>, m: nat, n: nat)
    requires m >= 1 && (forall c :: c in chunks ==> |c| <= m) && TotalLength(chunks) >= n
    ensures |chunks| >= Chunks(n, m)
  {
    if n > 0 {
      assert chunks != [];
      ChunksMinimal(chunks[1..], m, if n <= |chunks[0]| then 0 else n - |chunks[0]|);
      ChunksMonotone(if n <= m then 0 else n - m, if n <= |chunks[0]| then 0 else n - |chunks[0]|, m);
    }
  }

  function TotalLength(chunks: seq<seq<byte>>): nat {
    if chunks == [] then 0 else |chunks[0]| + TotalLength(chunks[1..])
  }

  lemma {:induction false} ChunksMonotone(a: nat, b: nat, m: nat)
    requires m >= 1 && a <= b
    ensures Chunks(a, m) <= Chunks(b, m)
  {
    if a > m {
      ChunksMonotone(a - m, b - m, m);
    }
  }

  /**
   Fragmentation is optimal for frames of every length exactly when the last entry towards the
   accessory is also the largest.
   */
  lemma OptimalIff(defs: seq<ReportDef>, side: ReportDir, largest: nat)
    requires Usable(defs, side) && HasEntry(defs, side) && IsLargest(defs, side, largest)
    ensures largest >= 1
    ensures (forall data: seq<byte> :: |Fragment(defs, side, data, 0)| == Chunks(|data|, largest))
        <==> LastSize(defs, side) == largest
  {
    var i := LastIndex(defs, side);
    assert defs[i] in defs;
    if LastSize(defs, side) == largest {
      forall data: seq<byte> ensures |Fragment(defs, side, data, 0)| == Chunks(|data|, largest) {
        if data != [] {
          FragmentCount(defs, side, data, 0, largest);
        }
      }
    } else {
      var data := Zeros(2 * largest);
      FragmentCount(defs, side, data, 0, largest);
      assert Chunks(2 * largest, largest) == 1 + Chunks(largest, largest) == 2;
      var last := LastSize(defs, side);
      assert Chunks(largest, last) == 1 + Chunks(largest - last, last) >= 2;
      assert |Fragment(defs, side, data, 0)| != Chunks(|data|, largest);
    }
  }

  /** What makes entry `i` the last and the largest towards the accessory. */
  lemma LastIsLargest(defs: seq<ReportDef>, side: ReportDir, i: nat)
    requires i < |defs| && defs[i].dir == side
    requires forall k :: 0 <= k < |defs| && defs[k].dir == side ==> k <= i && 1 <= defs[k].len - 1 <= defs[i].len - 1
    ensures Usable(defs, side) && HasEntry(defs, side)
    ensures LastSize(defs, side) == defs[i].len - 1 && IsLargest(defs, side, defs[i].len - 1)
  {
    assert defs[i] in defs;
    var j := LastIndex(defs, side);
  }

  /** Both built-in tables are usable and optimal: their last entries carry 62 and 766 bytes, the most of all. */
  lemma DefaultTableOptimal()
    ensures Usable(DEFAULT_REPORT_DEFS, AccIn) && HasEntry(DEFAULT_REPORT_DEFS, AccIn)
    ensures LastSize(DEFAULT_REPORT_DEFS, AccIn) == 62 && IsLargest(DEFAULT_REPORT_DEFS, AccIn, 62)
    ensures forall data: seq<byte> :: |Fragment(DEFAULT_REPORT_DEFS, AccIn, data, 0)| == Chunks(|data|, 62)
  {
    LastIsLargest(DEFAULT_REPORT_DEFS, AccIn, 8);
    hide Usable, HasEntry, IsLargest, Fragment, Chunks;
    OptimalIff(DEFAULT_REPORT_DEFS, AccIn, 62);
  }

  lemma LegacyTableOptimal()
    ensures Usable(LEGACY_REPORT_DEFS, AccIn) && HasEntry(LEGACY_REPORT_DEFS, AccIn)
    ensures LastSize(LEGACY_REPORT_DEFS, AccIn) == 766 && IsLargest(LEGACY_REPORT_DEFS, AccIn, 766)
    ensures forall data: seq<byte> :: |Fragment(LEGACY_REPORT_DEFS, AccIn, data, 0)| == Chunks(|data|, 766)
  {
    assert forall i :: 0 <= i < 12 ==> 5 <= LEGACY_ACC_IN_DEFS[i].len <= 767;
    assert forall i :: 0 <= i < 9 ==> LEGACY_ACC_OUT_DEFS[i].dir == AccOut;
    LastIsLargest(LEGACY_REPORT_DEFS, AccIn, 11);
    hide Usable, HasEntry, IsLargest, Fragment, Chunks;
    OptimalIff(LEGACY_REPORT_DEFS, AccIn, 766);
  }
}
