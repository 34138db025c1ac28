/** The index table in the first page of the memory image. From offset 0x100
    on it lists, per activity, the pages the activity occupies, each list ended
    by one 0xFF; two 0xFF in a row end the table (for example
    01 02 03 04 FF 05 06 FF FF: activity 1 on pages 1-4, activity 2 on pages 5-6).
    Both the dump (to find the last page to read) and the decoder (to find where
    each activity starts) walk this table. */
module Header {
  import opened Common

  const TableStart := 0x100
  const HeaderSize := 0x1000
  const PageSize := 0x1000
  const Terminator: byte := 0xFF

  /** Two terminators in a row begin at index k. */
  predicate PairAt(d: seq<byte>, k: int)
  {
    0 <= k && k + 1 < |d| && d[k] == Terminator && d[k + 1] == Terminator
  }

  /** The index of the first terminator pair at or after i, or |d| when there is none. */
  function FirstPair(d: seq<byte>, i: nat): (j: nat)
    requires i <= |d|
    ensures i <= j <= |d|
    ensures j < |d| ==> PairAt(d, j)
    ensures forall k :: i <= k < j ==> !PairAt(d, k)
    decreases |d| - i
  {
    if i + 1 >= |d| then |d|
    else if PairAt(d, i) then i
    else FirstPair(d, i + 1)
  }

  /** True when the table is empty or the image is too short to hold one. */
  predicate NoTable(d: seq<byte>)
  {
    |d| < HeaderSize || d[TableStart] == Terminator
  }

  // ---------------------------------------------------------------------
  // The last used page (GetMaxPage)
  // ---------------------------------------------------------------------

  /** The page number GetMaxPage finds: 0 when there is no table; otherwise the
      byte just before the first terminator pair, as long as that pair starts
      below 0xFFFF; past that the scan gives up and takes the byte at 0xFFFE.
      Reading past the end of `d` raises. */
  function MaxPage(d: seq<byte>): (r: Outcome<byte>)
    ensures NoTable(d) ==> r == Returned(0)
    ensures !NoTable(d) && FirstPair(d, TableStart) < |d| && FirstPair(d, TableStart) < 0xFFFF
            ==> r == Returned(d[FirstPair(d, TableStart) - 1])
  {
    if NoTable(d) then Returned(0)
    else
      var j := FirstPair(d, TableStart);
      if j < |d| && j < 0xFFFF then Returned(d[j - 1])
      else if |d| > 0xFFFF || (|d| == 0xFFFF && d[0xFFFE] != Terminator) then Returned(d[0xFFFE])
      else Threw(IndexOutOfRange)
  }

  /** On a header of one page the scan finds a page number that is never 0xFF,
      so a byte-sized page loop up to it ends. */
  lemma MaxPageBelowTerminator(d: seq<byte>)
    requires |d| == HeaderSize
    ensures MaxPage(d).Returned? ==> MaxPage(d).value != Terminator
  {
    if !NoTable(d) {
      var j := FirstPair(d, TableStart);
      if j < |d| {
        assert j != TableStart;
        assert !PairAt(d, j - 1);
      }
    }
  }

  /** On a header of one page the scan raises exactly when the table holds no
      terminator pair. */
  lemma MaxPageRaises(d: seq<byte>)
    requires |d| == HeaderSize
    ensures MaxPage(d).Threw? <==> !NoTable(d) && forall k :: TableStart <= k < |d| ==> !PairAt(d, k)
  {
    if !NoTable(d) && FirstPair(d, TableStart) < |d| {
      assert PairAt(d, FirstPair(d, TableStart));
    }
  }

  lemma MaxPageExample(d: seq<byte>)
    requires |d| == HeaderSize
    requires d[TableStart..TableStart + 3] == [0x05, 0xFF, 0xFF]
    ensures MaxPage(d) == Returned(0x05)
  {
    assert d[TableStart] == 0x05 && d[TableStart + 1] == 0xFF && d[TableStart + 2] == 0xFF;
    assert FirstPair(d, TableStart) == FirstPair(d, TableStart + 1);
  }

  // ---------------------------------------------------------------------
  // The activity list (GetNumberOfActivities)
  // ---------------------------------------------------------------------

  /** The index of the first terminator at or after i, or |d| when there is none. */
  function NextTerminator(d: seq<byte>, i: nat): (f: nat)
    requires i <= |d|
    ensures i <= f <= |d|
    ensures f < |d| ==> d[f] == Terminator
    ensures forall k :: i <= k < f ==> d[k] != Terminator
    decreases |d| - i
  {
    if i == |d| then |d|
    else if d[i] == Terminator then i
    else NextTerminator(d, i + 1)
  }

  /** The page bytes collected by a walk, and whether it reached the end of the
      table (false: it ran off the end of the image and raised). */
  datatype Walk = Walk(entries: seq<byte>, complete: bool)

  /** The walk from an entry at i: skip to the next terminator, then the byte
      after it either ends the table (a second terminator) or is the first page
      of the next activity. */
  function WalkFrom(d: seq<byte>, i: nat): Walk
    requires i <= |d|
    decreases |d| - i
  {
    var f := NextTerminator(d, i);
    if f + 1 >= |d| then Walk([], false)
    else if d[f + 1] == Terminator then Walk([], true)
    else
      var w := WalkFrom(d, f + 1);
      Walk([d[f + 1]] + w.entries, w.complete)
  }

  /** The first pages of the activities, in table order. */
  function ActivityPages(d: seq<byte>): Walk
  {
    if NoTable(d) then Walk([], true)
    else
      var w := WalkFrom(d, TableStart);
      Walk([d[TableStart]] + w.entries, w.complete)
  }

  /** Start offset of the activity whose first page is b. */
  function PageOffset(b: byte): nat
  {
    b as nat * PageSize
  }

  function Offsets(pages: seq<byte>): (r: seq<nat>)
    ensures |r| == |pages|
    ensures forall k :: 0 <= k < |r| ==> r[k] == PageOffset(pages[k])
  {
    seq(|pages|, k requires 0 <= k < |pages| => PageOffset(pages[k]))
  }

  lemma OffsetsAppend(pages: seq<byte>, b: byte)
    ensures Offsets(pages + [b]) == Offsets(pages) + [PageOffset(b)]
  {
    assert Offsets(pages + [b])[|pages|] == PageOffset(b);
  }

  lemma OffsetsOnPageBoundaries(pages: seq<byte>)
    ensures forall k :: 0 <= k < |pages| ==> Offsets(pages)[k] % PageSize == 0 && Offsets(pages)[k] <= 0xFF000
  {
  }

  /** The reference reading of the table: the byte after every terminator
      in d[lo..hi]. */
  function Followers(d: seq<byte>, lo: nat, hi: nat): seq<byte>
    requires hi < |d|
    decreases hi - lo
  {
    if lo >= hi then []
    else (if d[lo] == Terminator then [d[lo + 1]] else []) + Followers(d, lo + 1, hi)
  }

  lemma {:induction false} FollowersSkip(d: seq<byte>, lo: nat, f: nat, hi: nat)
    requires lo <= f <= hi < |d|
    requires forall k :: lo <= k < f ==> d[k] != Terminator
    ensures Followers(d, lo, hi) == Followers(d, f, hi)
    decreases f - lo
  {
    if lo < f {
      assert Followers(d, lo, hi) == [] + Followers(d, lo + 1, hi);
      FollowersSkip(d, lo + 1, f, hi);
    }
  }

  lemma {:induction false} FirstPairSkip(d: seq<byte>, lo: nat, f: nat)
    requires lo <= f <= |d|
    requires forall k :: lo <= k < f ==> d[k] != Terminator
    ensures FirstPair(d, lo) == FirstPair(d, f)
    decreases f - lo
  {
    if lo < f {
      FirstPairSkip(d, lo + 1, f);
    }
  }

  /** The walk from an entry finishes exactly when a terminator pair follows,
      and then it has collected the byte after every single terminator before
      that pair. */
  lemma {:induction false} WalkReadsFollowers(d: seq<byte>, i: nat)
    requires i < |d| && d[i] != Terminator
    ensures WalkFrom(d, i).complete <==> FirstPair(d, i) < |d|
    ensures WalkFrom(d, i).complete ==> WalkFrom(d, i).entries == Followers(d, i, FirstPair(d, i))
    decreases |d| - i
  {
    var f := NextTerminator(d, i);
    FirstPairSkip(d, i, f);
    if f + 1 >= |d| {
      assert FirstPair(d, f) == |d|;
    } else if d[f + 1] == Terminator {
      assert PairAt(d, f);
      FollowersSkip(d, i, f, f);
    } else {
      assert !PairAt(d, f);
      assert FirstPair(d, f) == FirstPair(d, f + 1);
      WalkReadsFollowers(d, f + 1);
      var j := FirstPair(d, i);
      if j < |d| {
        FollowersSkip(d, i, f, j);
        assert Followers(d, f, j) == [d[f + 1]] + Followers(d, f + 1, j);
      }
    }
  }

  /** GetNumberOfActivities' list, characterised: the table finishes exactly
      when it holds a terminator pair, and then the activities start on the page
      at 0x100 and on the page after every single terminator before the pair. */
  lemma ActivityPagesCharacterised(d: seq<byte>)
    requires !NoTable(d)
    ensures ActivityPages(d).complete <==> exists k :: TableStart <= k && PairAt(d, k)
    ensures ActivityPages(d).complete ==>
      ActivityPages(d).entries == [d[TableStart]] + Followers(d, TableStart, FirstPair(d, TableStart))
  {
    WalkReadsFollowers(d, TableStart);
    var j := FirstPair(d, TableStart);
    if j < |d| {
      assert PairAt(d, j);
    }
  }

  /** Example: the table 01 02 FF 03 FF FF lists two activities, on pages 1 and 3;
      page 2 is the second page of the first activity, not an activity. */
  lemma ActivityPagesExample(d: seq<byte>)
    requires |d| >= HeaderSize
    requires d[TableStart..TableStart + 6] == [0x01, 0x02, 0xFF, 0x03, 0xFF, 0xFF]
    ensures ActivityPages(d) == Walk([0x01, 0x03], true)
  {
    assert d[TableStart] == 0x01 && d[TableStart + 1] == 0x02 && d[TableStart + 2] == 0xFF;
    assert d[TableStart + 3] == 0x03 && d[TableStart + 4] == 0xFF && d[TableStart + 5] == 0xFF;
    assert NextTerminator(d, TableStart) == TableStart + 2;
    assert NextTerminator(d, TableStart + 3) == TableStart + 4;
    assert WalkFrom(d, TableStart + 3) == Walk([], true);
    assert WalkFrom(d, TableStart) == Walk([0x03], true);
  }
}
