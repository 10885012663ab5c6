/** The clock algorithm's choice of a victim (evict_frame in src/vm/frame.c, lines
    135-181). */
module Clock {
  import opened Common

  /** A user page: the process that owns it and its page number. */
  datatype Page = Page(owner: nat, upage: nat)

  /** struct frame_entry. */
  datatype Frame = Frame(kpage: nat, page: Page, pinned: bool)

  ghost predicate DistinctPages(frames: seq<Frame>) {
    forall i, j :: 0 <= i < j < |frames| ==> frames[i].page != frames[j].page
  }

  /** The frame after position i, around the end of the table. */
  function Next(i: nat, n: nat): nat
    requires i < n
    ensures Next(i, n) < n
  {
    if i + 1 == n then 0 else i + 1
  }

  /** The loop of evict_frame: at most `steps` frames are looked at from pos on;
      accessed bits of unpinned frames are cleared on the way. */
  function Sweep(frames: seq<Frame>, accessed: set<Page>, pos: nat, steps: nat): (r: (set<Page>, Option<nat>))
    requires pos < |frames|
    ensures r.1.Some? ==> r.1.value < |frames| && !frames[r.1.value].pinned && frames[r.1.value].page !in r.0
    ensures r.0 <= accessed
    decreases steps
  {
    if steps == 0 then (accessed, None)
    else if frames[pos].pinned then Sweep(frames, accessed, Next(pos, |frames|), steps - 1)
    else if frames[pos].page in accessed then
      Sweep(frames, accessed - {frames[pos].page}, Next(pos, |frames|), steps - 1)
    else (accessed, Some(pos))
  }

  /** The k-th frame from start on. */
  function Pos(start: nat, k: nat, n: nat): nat
    requires start < n && k <= n
    ensures Pos(start, k, n) < n
  {
    if start + k < n then start + k else start + k - n
  }

  /** The accessed bits once the first k frames from start on were passed. */
  function Cleared(frames: seq<Frame>, accessed: set<Page>, start: nat, k: nat): (r: set<Page>)
    requires start < |frames| && k <= |frames|
    ensures r <= accessed
  {
    if k == 0 then accessed
    else
      var f := frames[Pos(start, k - 1, |frames|)];
      if f.pinned then Cleared(frames, accessed, start, k - 1) else Cleared(frames, accessed, start, k - 1) - {f.page}
  }

  /** Exactly the pages of the unpinned frames passed have lost their bit. */
  lemma {:induction false} ClearedIs(frames: seq<Frame>, accessed: set<Page>, start: nat, k: nat, p: Page)
    requires start < |frames| && k <= |frames|
    ensures p in Cleared(frames, accessed, start, k) <==>
            && p in accessed
            && forall j :: 0 <= j < k ==>
                 var f := frames[Pos(start, j, |frames|)]; f.pinned || f.page != p
  {
    if k > 0 { ClearedIs(frames, accessed, start, k - 1, p); }
  }

  lemma PosInjective(start: nat, j: nat, k: nat, n: nat)
    requires start < n && j < n && k < n && j != k
    ensures Pos(start, j, n) != Pos(start, k, n)
  {
  }

  /** Frames that are pinned or accessed are passed over, once each. */
  lemma {:induction false} PassOver(frames: seq<Frame>, accessed: set<Page>, start: nat, k: nat, steps: nat)
    requires start < |frames| && k <= |frames| && k <= steps && DistinctPages(frames)
    requires forall j :: 0 <= j < k ==> var f := frames[Pos(start, j, |frames|)]; f.pinned || f.page in accessed
    ensures Sweep(frames, accessed, start, steps)
         == Sweep(frames, Cleared(frames, accessed, start, k), Pos(start, k, |frames|) , steps - k)
  {
    if k > 0 {
      PassOver(frames, accessed, start, k - 1, steps);
      var n := |frames|;
      var i := Pos(start, k - 1, n);
      assert Next(i, n) == Pos(start, k, n);
      if !frames[i].pinned {
        ClearedIs(frames, accessed, start, k - 1, frames[i].page);
        forall j | 0 <= j < k - 1 ensures frames[Pos(start, j, n)].page != frames[i].page {
          PosInjective(start, j, k - 1, n);
        }
      }
    }
  }

  /** No frame before the k-th is a candidate. */
  ghost predicate NoneBefore(frames: seq<Frame>, accessed: set<Page>, start: nat, k: nat)
    requires start < |frames| && k <= |frames|
  {
    forall j :: 0 <= j < k ==> var f := frames[Pos(start, j, |frames|)]; f.pinned || f.page in accessed
  }

  ghost predicate PinnedBefore(frames: seq<Frame>, start: nat, k: nat)
    requires start < |frames| && k <= |frames|
  {
    forall j :: 0 <= j < k ==> frames[Pos(start, j, |frames|)].pinned
  }

  lemma {:induction false} CandidateOrNone(frames: seq<Frame>, accessed: set<Page>, start: nat, n: nat) returns (k: nat)
    requires start < |frames| && n <= |frames|
    ensures k <= n && NoneBefore(frames, accessed, start, k)
    ensures k < n ==> var f := frames[Pos(start, k, |frames|)]; !f.pinned && f.page !in accessed
  {
    k := 0;
    while k < n && (frames[Pos(start, k, |frames|)].pinned || frames[Pos(start, k, |frames|)].page in accessed)
      invariant k <= n && NoneBefore(frames, accessed, start, k)
    {
      k := k + 1;
    }
  }

  /** Second chance, in two rounds of the table.  If some unpinned frame has its
      accessed bit clear, the first such frame from the hand on is chosen, and only the
      frames passed on the way lose their bits.  Otherwise all bits of unpinned frames
      are cleared and the first unpinned frame is chosen; there is no victim only if
      every frame is pinned. */
  ghost predicate SecondChance(frames: seq<Frame>, accessed: set<Page>, start: nat, r: (set<Page>, Option<nat>), k: nat)
    requires start < |frames| && k <= |frames|
  {
    var n := |frames|;
    if NoneBefore(frames, accessed, start, n) then
      && r.0 == Cleared(frames, accessed, start, n)
      && PinnedBefore(frames, start, k)
      && (if k < n then r.1 == Some(Pos(start, k, n)) && !frames[Pos(start, k, n)].pinned else r.1 == None)
    else
      && k < n && NoneBefore(frames, accessed, start, k)
      && r == (Cleared(frames, accessed, start, k), Some(Pos(start, k, n)))
      && !frames[Pos(start, k, n)].pinned && frames[Pos(start, k, n)].page !in accessed
  }

  lemma SweepMeaning(frames: seq<Frame>, accessed: set<Page>, start: nat) returns (k: nat)
    requires start < |frames| && DistinctPages(frames)
    ensures k <= |frames| && SecondChance(frames, accessed, start, Sweep(frames, accessed, start, 2 * |frames|), k)
  {
    var n := |frames|;
    k := CandidateOrNone(frames, accessed, start, n);
    PassOver(frames, accessed, start, k, 2 * n);
    if k < n {
      ClearedIs(frames, accessed, start, k, frames[Pos(start, k, n)].page);
      assert !NoneBefore(frames, accessed, start, n);
    } else {
      var bare := Cleared(frames, accessed, start, n);
      k := CandidateOrNone(frames, bare, start, n);
      SecondRound(frames, accessed, start, k);
    }
  }

  lemma SecondRound(frames: seq<Frame>, accessed: set<Page>, start: nat, k: nat)
    requires start < |frames| && DistinctPages(frames) && k <= |frames|
    requires NoneBefore(frames, accessed, start, |frames|)
    requires var bare := Cleared(frames, accessed, start, |frames|);
             && NoneBefore(frames, bare, start, k)
             && (k < |frames| ==>
                   !frames[Pos(start, k, |frames|)].pinned && frames[Pos(start, k, |frames|)].page !in bare)
    ensures SecondChance(frames, accessed, start, Sweep(frames, accessed, start, 2 * |frames|), k)
  {
    var n := |frames|;
    var bare := Cleared(frames, accessed, start, n);
    PassOver(frames, accessed, start, n, 2 * n);
    PassOver(frames, bare, start, k, n);
    forall j | 0 <= j < k ensures frames[Pos(start, j, n)].pinned {
      ClearedIs(frames, accessed, start, n, frames[Pos(start, j, n)].page);
    }
    AllPinnedClears(frames, bare, start, k);
  }

  lemma {:induction false} AllPinnedClears(frames: seq<Frame>, accessed: set<Page>, start: nat, k: nat)
    requires start < |frames| && k <= |frames| && PinnedBefore(frames, start, k)
    ensures Cleared(frames, accessed, start, k) == accessed
  {
    if k > 0 { AllPinnedClears(frames, accessed, start, k - 1); }
  }

  /** Every frame is one of the n from start on. */
  lemma PosOnto(start: nat, i: nat, n: nat) returns (k: nat)
    requires start < n && i < n
    ensures k < n && Pos(start, k, n) == i
  {
    k := if start <= i then i - start else i + n - start;
  }

  /** A victim is found within two rounds if and only if some frame is not pinned. */
  lemma VictimExists(frames: seq<Frame>, accessed: set<Page>, start: nat)
    requires start < |frames| && DistinctPages(frames)
    ensures Sweep(frames, accessed, start, 2 * |frames|).1.None? <==> forall i :: 0 <= i < |frames| ==> frames[i].pinned
  {
    var k := SweepMeaning(frames, accessed, start);
    var r := Sweep(frames, accessed, start, 2 * |frames|);
    if r.1.None? {
      forall i | 0 <= i < |frames| ensures frames[i].pinned {
        var j := PosOnto(start, i, |frames|);
        assert frames[Pos(start, j, |frames|)].pinned;
      }
    }
  }
}
