/** simulateClock of mvirtual.cpp: the clock (second-chance) approximation of LRU. */
module Clock {
  import opened FaultCounting

  datatype ClockEntry = ClockEntry(pageNumber: int, useBit: bool)

  /** The page number of a frame that holds no page yet. */
  const Empty: int := -1

  /** The frames vector and the clock hand. */
  datatype ClockState = ClockState(frames: seq<ClockEntry>, hand: nat)

  /** The frames whose use bit is set. */
  function UseBits(frames: seq<ClockEntry>): set<nat>
  {
    set k: nat | k < |frames| && frames[k].useBit
  }

  /** Some frame holds page. */
  predicate Holds(frames: seq<ClockEntry>, page: int)
  {
    exists k :: 0 <= k < |frames| && frames[k].pageNumber == page
  }

  /** The hit scan of simulateClock from frame k on: the first frame holding page, or |frames| when none does. */
  function FirstHolding(frames: seq<ClockEntry>, page: int, k: nat): (j: nat)
    requires k <= |frames|
    ensures k <= j <= |frames|
    ensures j < |frames| ==> frames[j].pageNumber == page
    ensures forall m :: k <= m < j ==> frames[m].pageNumber != page
    decreases |frames| - k
  {
    if k == |frames| then k
    else if frames[k].pageNumber == page then k
    else FirstHolding(frames, page, k + 1)
  }

  /** How far frame k lies ahead of the hand h, going round the clock. */
  function Ahead(h: nat, k: nat, n: nat): nat
    requires h < n && k < n
  {
    if h <= k then k - h else k + n - h
  }

  /** Advancing the hand wraps from the last frame to the first. */
  lemma Advance(h: nat, n: nat)
    requires h < n
    ensures (h + 1) % n == if h + 1 < n then h + 1 else 0
  {
    if h + 1 == n {
      assert (h + 1) % n == n % n;
    }
  }

  /** Advancing the hand brings every other frame one step closer and puts the frame it left furthest away. */
  lemma AheadShift(h: nat, k: nat, n: nat)
    requires h < n && k < n
    ensures k != h ==> Ahead((h + 1) % n, k, n) == Ahead(h, k, n) - 1
    ensures Ahead((h + 1) % n, h, n) == n - 1
  {
    Advance(h, n);
  }

  /** The frame the hand stood on just before it advanced to h. */
  function Behind(h: nat, n: nat): nat
    requires h < n
  {
    if h == 0 then n - 1 else h - 1
  }

  /**
   * The replacement loop of simulateClock: clear the use bit under the hand
   * and advance until a frame with a clear bit comes up, then put page there
   * with its bit set and advance once more.  Every iteration but the last
   * clears a bit, so the number of set bits bounds the recursion.
   */
  function Sweep(s: ClockState, page: int): (r: ClockState)
    requires s.hand < |s.frames|
    ensures |r.frames| == |s.frames| && r.hand < |r.frames|
    decreases |UseBits(s.frames)|
  {
    var n := |s.frames|;
    Advance(s.hand, n);
    if !s.frames[s.hand].useBit then
      ClockState(s.frames[s.hand := ClockEntry(page, true)], (s.hand + 1) % n)
    else
      var cleared := s.frames[s.hand := s.frames[s.hand].(useBit := false)];
      assert UseBits(cleared) == UseBits(s.frames) - {s.hand};
      Sweep(ClockState(cleared, (s.hand + 1) % n), page)
  }

  /** The number of iterations the replacement loop makes. */
  function SweepLength(s: ClockState): (len: nat)
    requires s.hand < |s.frames|
    ensures 1 <= len <= |UseBits(s.frames)| + 1
    decreases |UseBits(s.frames)|
  {
    var n := |s.frames|;
    if !s.frames[s.hand].useBit then 1
    else
      var cleared := s.frames[s.hand := s.frames[s.hand].(useBit := false)];
      assert UseBits(cleared) == UseBits(s.frames) - {s.hand};
      1 + SweepLength(ClockState(cleared, (s.hand + 1) % n))
  }

  /** The replacement loop ends within numFrames + 1 iterations. */
  lemma SweepTerminates(s: ClockState)
    requires s.hand < |s.frames|
    ensures SweepLength(s) <= |s.frames| + 1
  {
    UseBitsBound(s.frames);
  }

  lemma {:induction false} UseBitsBound(frames: seq<ClockEntry>)
    ensures |UseBits(frames)| <= |frames|
  {
    if frames != [] {
      var m := |frames| - 1;
      UseBitsBound(frames[..m]);
      assert m !in UseBits(frames[..m]);
      assert UseBits(frames) == UseBits(frames[..m]) + (if frames[m].useBit then {m} else {});
    }
  }

  /** The replacement loop writes page into the frame it stops at and otherwise only clears use bits. */
  lemma {:induction false} SweepFrames(s: ClockState, page: int)
    requires s.hand < |s.frames|
    ensures var r := Sweep(s, page);
      var n := |s.frames|;
      var v := Behind(r.hand, n);
      r.frames[v] == ClockEntry(page, true) &&
      (forall k :: 0 <= k < n && k != v ==> r.frames[k].pageNumber == s.frames[k].pageNumber) &&
      (forall k :: 0 <= k < n && k != v && r.frames[k].useBit ==> s.frames[k].useBit)
    decreases |UseBits(s.frames)|
  {
    var n := |s.frames|;
    Advance(s.hand, n);
    if s.frames[s.hand].useBit {
      var cleared := s.frames[s.hand := s.frames[s.hand].(useBit := false)];
      assert UseBits(cleared) == UseBits(s.frames) - {s.hand};
      SweepFrames(ClockState(cleared, (s.hand + 1) % n), page);
    }
  }

  /**
   * Second chance, seen from hand h: frame v is the first frame at or after h,
   * going round, whose use bit is clear; or every bit is set and v is h itself.
   */
  predicate FirstClear(frames: seq<ClockEntry>, h: nat, v: nat)
    requires h < |frames| && v < |frames|
  {
    var n := |frames|;
    (!frames[v].useBit && forall k :: 0 <= k < n && Ahead(h, k, n) < Ahead(h, v, n) ==> frames[k].useBit) ||
    (v == h && forall k :: 0 <= k < n ==> frames[k].useBit)
  }

  /** Clearing the set bit under the hand and advancing keeps the frame the loop will stop at. */
  lemma FirstClearStep(frames: seq<ClockEntry>, h: nat, v: nat)
    requires h < |frames| && v < |frames| && frames[h].useBit
    requires FirstClear(frames[h := frames[h].(useBit := false)], (h + 1) % |frames|, v)
    ensures FirstClear(frames, h, v)
  {
    var n := |frames|;
    var cleared := frames[h := frames[h].(useBit := false)];
    Advance(h, n);
    assert !cleared[h].useBit;
    assert !cleared[v].useBit;
    if v == h {
      forall k | 0 <= k < n && k != h
        ensures frames[k].useBit
      {
        AheadShift(h, k, n);
      }
    } else {
      forall k | 0 <= k < n && k != h && Ahead(h, k, n) < Ahead(h, v, n)
        ensures frames[k].useBit
      {
        AheadShift(h, k, n);
        AheadShift(h, v, n);
      }
    }
  }

  /** The replacement loop stops at the first frame from the hand whose use bit is clear, or where it started. */
  lemma {:induction false} SweepStopsAtFirstClear(s: ClockState, page: int)
    requires s.hand < |s.frames|
    ensures FirstClear(s.frames, s.hand, Behind(Sweep(s, page).hand, |s.frames|))
    decreases |UseBits(s.frames)|
  {
    var n := |s.frames|;
    Advance(s.hand, n);
    if s.frames[s.hand].useBit {
      var cleared := s.frames[s.hand := s.frames[s.hand].(useBit := false)];
      assert UseBits(cleared) == UseBits(s.frames) - {s.hand};
      var next := ClockState(cleared, (s.hand + 1) % n);
      SweepStopsAtFirstClear(next, page);
      FirstClearStep(s.frames, s.hand, Behind(Sweep(next, page).hand, n));
    }
  }

  /**
   * The use bits the replacement loop leaves, apart from the victim v's: a
   * frame keeps its bit exactly when the bit was set and the hand had not
   * reached the frame by the time it stopped at v.
   */
  predicate PassedCleared(before: seq<ClockEntry>, after: seq<ClockEntry>, h: nat, v: nat)
    requires |after| == |before| && h < |before| && v < |before|
  {
    forall k :: 0 <= k < |before| && k != v ==>
      (after[k].useBit <==> before[k].useBit && Ahead(h, v, |before|) < Ahead(h, k, |before|))
  }

  /** A second chance given to the frame under the hand, before the hand reaches v, is one more passed frame. */
  lemma PassedClearedStep(frames: seq<ClockEntry>, after: seq<ClockEntry>, h: nat, v: nat)
    requires |after| == |frames| && h < |frames| && v < |frames| && v != h && frames[h].useBit
    requires PassedCleared(frames[h := frames[h].(useBit := false)], after, (h + 1) % |frames|, v)
    ensures PassedCleared(frames, after, h, v)
  {
    var n := |frames|;
    forall k | 0 <= k < n && k != v
      ensures after[k].useBit <==> frames[k].useBit && Ahead(h, v, n) < Ahead(h, k, n)
    {
      AheadShift(h, k, n);
      AheadShift(h, v, n);
    }
  }

  /** When every bit was set, the loop goes once round and clears all of them but the victim's. */
  lemma PassedClearedRevolution(frames: seq<ClockEntry>, after: seq<ClockEntry>, h: nat)
    requires |after| == |frames| && h < |frames|
    requires PassedCleared(frames[h := frames[h].(useBit := false)], after, (h + 1) % |frames|, h)
    ensures forall k :: 0 <= k < |frames| && k != h ==> !after[k].useBit
  {
    var n := |frames|;
    forall k | 0 <= k < n && k != h
      ensures !after[k].useBit
    {
      AheadShift(h, k, n);
    }
  }

  /**
   * Which use bits the replacement loop clears: when some bit was clear, the
   * frames the hand passed lose their bits and the frames beyond the victim
   * keep theirs; when every bit was set, every bit but the victim's ends clear.
   */
  lemma {:induction false} SweepClearsPassed(s: ClockState, page: int)
    requires s.hand < |s.frames|
    ensures var r := Sweep(s, page);
      var n := |s.frames|;
      var v := Behind(r.hand, n);
      ((exists k :: 0 <= k < n && !s.frames[k].useBit) ==> PassedCleared(s.frames, r.frames, s.hand, v)) &&
      ((forall k :: 0 <= k < n ==> s.frames[k].useBit) ==> forall k :: 0 <= k < n && k != v ==> !r.frames[k].useBit)
    decreases |UseBits(s.frames)|
  {
    var n := |s.frames|;
    var h := s.hand;
    Advance(h, n);
    if s.frames[h].useBit {
      var cleared := s.frames[h := s.frames[h].(useBit := false)];
      assert UseBits(cleared) == UseBits(s.frames) - {h};
      var next := ClockState(cleared, (h + 1) % n);
      assert !cleared[h].useBit;
      SweepClearsPassed(next, page);
      var r := Sweep(next, page);
      assert r == Sweep(s, page);
      var v := Behind(r.hand, n);
      SweepStopsAtFirstClear(s, page);
      if exists k :: 0 <= k < n && !s.frames[k].useBit {
        PassedClearedStep(s.frames, r.frames, h, v);
      } else {
        PassedClearedRevolution(s.frames, r.frames, h);
      }
    }
  }

  /**
   * One reference: on a hit the first frame holding the page gets its use bit
   * set; on a miss the replacement loop runs.
   */
  function ClockStep(s: ClockState, page: int): (r: ClockState)
    requires s.hand < |s.frames|
    ensures |r.frames| == |s.frames| && r.hand < |r.frames|
  {
    var k := FirstHolding(s.frames, page, 0);
    if k < |s.frames| then ClockState(s.frames[k := s.frames[k].(useBit := true)], s.hand)
    else Sweep(s, page)
  }

  /** numFrames empty frames with clear use bits, the hand on the first. */
  function ClockInit(numFrames: nat): ClockState
  {
    ClockState(seq(numFrames, _ => ClockEntry(Empty, false)), 0)
  }

  /** The frames and the hand after the first i references. */
  function ClockAfter(refs: seq<int>, i: nat, numFrames: nat): (s: ClockState)
    requires i <= |refs| && numFrames >= 1
    ensures |s.frames| == numFrames && s.hand < numFrames
  {
    if i == 0 then ClockInit(numFrames)
    else ClockStep(ClockAfter(refs, i - 1, numFrames), refs[i - 1])
  }

  /** Reference i faults exactly when no frame holds its page at its turn. */
  function ClockFaults(refs: seq<int>, numFrames: nat): seq<bool>
    requires numFrames >= 1
  {
    seq(|refs|, i requires 0 <= i < |refs| => !Holds(ClockAfter(refs, i, numFrames).frames, refs[i]))
  }

  /** Every frame that holds a page holds a different one, and only pages of the given prefix. */
  ghost predicate ResidentPagesOk(frames: seq<ClockEntry>, seen: seq<int>)
  {
    (forall a, b :: 0 <= a < b < |frames| && frames[a].pageNumber != Empty ==>
      frames[a].pageNumber != frames[b].pageNumber) &&
    (forall a :: 0 <= a < |frames| && frames[a].pageNumber != Empty ==> frames[a].pageNumber in seen)
  }

  /** A step keeps the resident pages distinct and drawn from the references seen so far. */
  lemma ClockStepKeeps(s: ClockState, seen: seq<int>, page: int)
    requires s.hand < |s.frames| && ResidentPagesOk(s.frames, seen)
    ensures ResidentPagesOk(ClockStep(s, page).frames, seen + [page])
    ensures Holds(ClockStep(s, page).frames, page)
  {
    var n := |s.frames|;
    var k := FirstHolding(s.frames, page, 0);
    var r := ClockStep(s, page);
    if k == n {
      SweepFrames(s, page);
      var v := Behind(r.hand, n);
      forall a, b | 0 <= a < b < n && r.frames[a].pageNumber != Empty
        ensures r.frames[a].pageNumber != r.frames[b].pageNumber
      {
        if a != v && b != v {
          assert s.frames[a].pageNumber != s.frames[b].pageNumber;
        }
      }
      forall a | 0 <= a < n && r.frames[a].pageNumber != Empty
        ensures r.frames[a].pageNumber in seen + [page]
      {
        if a != v {
          assert s.frames[a].pageNumber in seen;
        }
      }
      assert r.frames[v].pageNumber == page;
    } else {
      assert r.frames[k].pageNumber == page;
      forall a | 0 <= a < n && r.frames[a].pageNumber != Empty
        ensures r.frames[a].pageNumber in seen + [page]
      {
        assert r.frames[a].pageNumber == s.frames[a].pageNumber;
      }
    }
  }

  /** The frames never hold a page twice, and hold only pages already referenced. */
  lemma {:induction false} ClockInvariant(refs: seq<int>, i: nat, numFrames: nat)
    requires i <= |refs| && numFrames >= 1
    ensures ResidentPagesOk(ClockAfter(refs, i, numFrames).frames, refs[..i])
  {
    if i > 0 {
      ClockInvariant(refs, i - 1, numFrames);
      ClockStepKeeps(ClockAfter(refs, i - 1, numFrames), refs[..i - 1], refs[i - 1]);
      assert refs[..i] == refs[..i - 1] + [refs[i - 1]];
    }
  }

  /** The first reference to a page always faults, unless the page number is the empty-frame marker. */
  lemma ClockFirstReferenceFaults(refs: seq<int>, numFrames: nat, i: nat)
    requires numFrames >= 1 && i < |refs| && FirstUse(refs, i) && refs[i] != Empty
    ensures ClockFaults(refs, numFrames)[i]
  {
    ClockInvariant(refs, i, numFrames);
  }

  /** The clock policy faults at least once per distinct page, when no reference is the empty-frame marker. */
  lemma ClockCompulsory(refs: seq<int>, numFrames: nat)
    requires numFrames >= 1 && Empty !in refs
    ensures Count(ClockFaults(refs, numFrames)) >= |Pages(refs)|
  {
    forall i | 0 <= i < |refs| && FirstUse(refs, i)
      ensures ClockFaults(refs, numFrames)[i]
    {
      ClockFirstReferenceFaults(refs, numFrames, i);
    }
    CompulsoryMisses(refs, ClockFaults(refs, numFrames));
  }

  /**
   * The hit scan compares page numbers only, so a reference to -1 hits any
   * frame whose page number is -1: one never filled, or one into which an
   * earlier reference to -1 was loaded.
   */
  lemma ClockEmptyMarkerHits(refs: seq<int>, numFrames: nat, i: nat)
    requires numFrames >= 1 && i < |refs| && refs[i] == Empty
    requires exists k :: 0 <= k < numFrames && ClockAfter(refs, i, numFrames).frames[k].pageNumber == Empty
    ensures !ClockFaults(refs, numFrames)[i]
  {
  }

  /** Example: the string [-1] makes no fault at all, fewer than its one distinct page. */
  lemma ClockEmptyMarkerExample(numFrames: nat)
    requires numFrames >= 1
    ensures ClockFaults([Empty], numFrames) == [false]
    ensures Count(ClockFaults([Empty], numFrames)) < |Pages([Empty])|
  {
    var frames := ClockAfter([Empty], 0, numFrames).frames;
    assert frames[0].pageNumber == Empty;
    ClockEmptyMarkerHits([Empty], numFrames, 0);
    assert Pages([Empty]) == {Empty};
  }

  /** The hit scan of simulateClock: sets the use bit of the first frame holding page, if any. */
  method MarkIfResident(frames: array<ClockEntry>, page: int) returns (pageInMemory: bool)
    modifies frames
    ensures pageInMemory == Holds(old(frames[..]), page)
    ensures var k := FirstHolding(old(frames[..]), page, 0);
      frames[..] == if k < frames.Length then old(frames[..])[k := old(frames[k]).(useBit := true)] else old(frames[..])
  {
    pageInMemory := false;
    var k := 0;
    while k < frames.Length
      invariant 0 <= k <= frames.Length
      invariant frames[..] == old(frames[..])
      invariant FirstHolding(frames[..], page, k) == FirstHolding(frames[..], page, 0)
    {
      if frames[k].pageNumber == page {
        frames[k] := frames[k].(useBit := true);
        pageInMemory := true;
        break;
      }
      k := k + 1;
    }
  }

  /**
   * The replacement loop of simulateClock, a while(true) that always ends:
   * it moves the hand as Sweep does and makes SweepLength iterations, at most
   * numFrames + 1.
   */
  method Replace(frames: array<ClockEntry>, hand: nat, page: int) returns (newHand: nat, ghost iterations: nat)
    requires hand < frames.Length
    modifies frames
    ensures ClockState(frames[..], newHand) == Sweep(ClockState(old(frames[..]), hand), page)
    ensures iterations == SweepLength(ClockState(old(frames[..]), hand))
    ensures iterations <= frames.Length + 1
  {
    ghost var start := ClockState(frames[..], hand);
    newHand := hand;
    iterations := 0;
    while true
      invariant newHand < frames.Length
      invariant Sweep(ClockState(frames[..], newHand), page) == Sweep(start, page)
      invariant iterations + SweepLength(ClockState(frames[..], newHand)) == SweepLength(start)
      decreases |UseBits(frames[..])|
    {
      Advance(newHand, frames.Length);
      if frames[newHand].useBit == false {
        frames[newHand] := ClockEntry(page, true);
        newHand := (newHand + 1) % frames.Length;
        iterations := iterations + 1;
        break;
      } else {
        ghost var was := frames[..];
        frames[newHand] := frames[newHand].(useBit := false);
        assert UseBits(frames[..]) == UseBits(was) - {newHand};
        newHand := (newHand + 1) % frames.Length;
        iterations := iterations + 1;
      }
    }
    SweepTerminates(start);
  }

  /**
   * simulateClock: counts exactly the references whose page no frame holds at
   * their turn; each replacement loop makes SweepLength iterations.
   */
  method SimulateClock(references: seq<int>, numFrames: nat) returns (pageFaults: nat)
    requires numFrames >= 1
    ensures pageFaults == Count(ClockFaults(references, numFrames))
    ensures pageFaults <= |references|
    ensures Empty !in references ==> |Pages(references)| <= pageFaults
  {
    pageFaults := 0;
    var frames := new ClockEntry[numFrames];
    var hand: nat := 0;
    for i := 0 to numFrames
      invariant forall k :: 0 <= k < i ==> frames[k] == ClockEntry(Empty, false)
    {
      frames[i] := ClockEntry(Empty, false);
    }
    assert frames[..] == ClockInit(numFrames).frames;
    ghost var flags := ClockFaults(references, numFrames);
    for i := 0 to |references|
      invariant ClockState(frames[..], hand) == ClockAfter(references, i, numFrames)
      invariant pageFaults == Count(flags[..i])
    {
      var page := references[i];
      CountStep(flags, i);
      var pageInMemory := MarkIfResident(frames, page);
      if pageInMemory {
        continue;
      }
      ghost var iterations;
      hand, iterations := Replace(frames, hand, page);
      pageFaults := pageFaults + 1;
    }
    assert flags[..|references|] == flags;
    if Empty !in references {
      ClockCompulsory(references, numFrames);
    }
  }
}
