/** simulateFIFO of mvirtual.cpp: first-in first-out page replacement. */
module Fifo {
  import opened FaultCounting

  /**
   * The frames queue after one reference, oldest page first: a hit leaves it
   * alone; a miss appends the page, first evicting the front when there is
   * no room.
   */
  function FifoStep(frames: seq<int>, page: int, numFrames: int): seq<int>
    requires numFrames != 0
  {
    if page in frames then frames
    else if HasRoom(|frames|, numFrames) then frames + [page]
    else frames[1..] + [page]
  }

  /** The frames queue after the first i references. */
  function FifoFrames(refs: seq<int>, i: nat, numFrames: int): seq<int>
    requires i <= |refs| && numFrames != 0
  {
    if i == 0 then [] else FifoStep(FifoFrames(refs, i - 1, numFrames), refs[i - 1], numFrames)
  }

  /** Reference i faults exactly when its page is not resident at its turn. */
  function FifoFaults(refs: seq<int>, numFrames: int): (flags: seq<bool>)
    requires numFrames != 0
  {
    seq(|refs|, i requires 0 <= i < |refs| => refs[i] !in FifoFrames(refs, i, numFrames))
  }

  /** A miss with room appends the page at the back. */
  lemma FifoMissWithRoom(frames: seq<int>, page: int, numFrames: int)
    requires numFrames != 0 && NoDup(frames) && WithinFrames(|frames|, numFrames)
    requires page !in frames && HasRoom(|frames|, numFrames)
    ensures var r := FifoStep(frames, page, numFrames);
      r == frames + [page] && NoDup(r) && WithinFrames(|r|, numFrames) && Pages(r) == Pages(frames) + {page}
  {
    NoDupSnoc(frames, page);
    PagesSnoc(frames, page);
  }

  /** A miss without room evicts the front (oldest) page and appends the new one at the back. */
  lemma FifoMissFull(frames: seq<int>, page: int, numFrames: int)
    requires numFrames != 0 && NoDup(frames) && WithinFrames(|frames|, numFrames)
    requires page !in frames && !HasRoom(|frames|, numFrames)
    ensures var r := FifoStep(frames, page, numFrames);
      |frames| == numFrames && r == frames[1..] + [page] && NoDup(r) && |r| == |frames| &&
      Pages(r) == Pages(frames) - {frames[0]} + {page}
  {
    var rest := frames[1..];
    assert frames == [frames[0]] + rest;
    assert NoDup(rest);
    PagesConcat([frames[0]], rest);
    assert Pages([frames[0]]) == {frames[0]};
    assert frames[0] !in Pages(rest);
    NoDupSnoc(rest, page);
    PagesSnoc(rest, page);
  }

  /** The replacement rule of one reference, stated on the resident pages. */
  lemma FifoStepRule(frames: seq<int>, page: int, numFrames: int)
    requires numFrames != 0 && NoDup(frames) && WithinFrames(|frames|, numFrames)
    ensures var r := FifoStep(frames, page, numFrames);
      NoDup(r) && WithinFrames(|r|, numFrames) && page in r &&
      Pages(r) <= Pages(frames) + {page} &&
      (page in frames ==> r == frames) &&
      (page !in frames && HasRoom(|frames|, numFrames) ==>
        r == frames + [page] && Pages(r) == Pages(frames) + {page}) &&
      (page !in frames && !HasRoom(|frames|, numFrames) ==>
        |frames| == numFrames && r == frames[1..] + [page] &&
        Pages(r) == Pages(frames) - {frames[0]} + {page})
  {
    if page !in frames {
      if HasRoom(|frames|, numFrames) {
        FifoMissWithRoom(frames, page, numFrames);
      } else {
        FifoMissFull(frames, page, numFrames);
      }
    }
  }

  /** The queue never holds a page twice, keeps within the frame bound, and holds only referenced pages. */
  lemma {:induction false} FifoInvariant(refs: seq<int>, i: nat, numFrames: int)
    requires i <= |refs| && numFrames != 0
    ensures var f := FifoFrames(refs, i, numFrames);
      NoDup(f) && WithinFrames(|f|, numFrames) && Pages(f) <= Pages(refs[..i])
  {
    if i > 0 {
      FifoInvariant(refs, i - 1, numFrames);
      FifoStepRule(FifoFrames(refs, i - 1, numFrames), refs[i - 1], numFrames);
      assert refs[..i] == refs[..i - 1] + [refs[i - 1]];
      PagesSnoc(refs[..i - 1], refs[i - 1]);
    }
  }

  /** The first reference to a page always faults. */
  lemma FifoFirstReferenceFaults(refs: seq<int>, numFrames: int, i: nat)
    requires numFrames != 0 && i < |refs| && FirstUse(refs, i)
    ensures FifoFaults(refs, numFrames)[i]
  {
    FifoInvariant(refs, i, numFrames);
    assert refs[i] !in Pages(refs[..i]);
  }

  /** FIFO faults at least once per distinct page. */
  lemma FifoCompulsory(refs: seq<int>, numFrames: int)
    requires numFrames != 0
    ensures Count(FifoFaults(refs, numFrames)) >= |Pages(refs)|
  {
    forall i | 0 <= i < |refs| && FirstUse(refs, i)
      ensures FifoFaults(refs, numFrames)[i]
    {
      FifoFirstReferenceFaults(refs, numFrames, i);
    }
    CompulsoryMisses(refs, FifoFaults(refs, numFrames));
  }

  /** With a negative frame count nothing is ever evicted: the queue holds every page referenced so far. */
  lemma {:induction false} FifoKeepsAll(refs: seq<int>, i: nat, numFrames: int)
    requires i <= |refs| && numFrames < 0
    ensures Pages(FifoFrames(refs, i, numFrames)) == Pages(refs[..i])
  {
    if i > 0 {
      FifoKeepsAll(refs, i - 1, numFrames);
      FifoInvariant(refs, i - 1, numFrames);
      FifoStepRule(FifoFrames(refs, i - 1, numFrames), refs[i - 1], numFrames);
      assert refs[..i] == refs[..i - 1] + [refs[i - 1]];
      PagesSnoc(refs[..i - 1], refs[i - 1]);
    }
  }

  /** With a negative frame count FIFO faults exactly once per distinct page. */
  lemma FifoUnbounded(refs: seq<int>, numFrames: int)
    requires numFrames < 0
    ensures Count(FifoFaults(refs, numFrames)) == |Pages(refs)|
  {
    forall i | 0 <= i < |refs|
      ensures FifoFaults(refs, numFrames)[i] <==> FirstUse(refs, i)
    {
      FifoKeepsAll(refs, i, numFrames);
      assert (refs[i] in FifoFrames(refs, i, numFrames)) == (refs[i] in Pages(refs[..i]));
    }
    OnlyCompulsoryMisses(refs, FifoFaults(refs, numFrames));
  }

  /**
   * simulateFIFO: a queue of frames plus the set of resident pages; counts
   * exactly the references whose page is not resident at their turn.
   */
  method SimulateFifo(references: seq<int>, numFrames: int) returns (pageFaults: nat)
    requires numFrames != 0
    ensures pageFaults == Count(FifoFaults(references, numFrames))
    ensures |Pages(references)| <= pageFaults <= |references|
    ensures numFrames < 0 ==> pageFaults == |Pages(references)|
  {
    pageFaults := 0;
    var frames: seq<int> := [];
    var pagesInMemory: set<int> := {};
    ghost var flags := FifoFaults(references, numFrames);
    for i := 0 to |references|
      invariant frames == FifoFrames(references, i, numFrames)
      invariant pagesInMemory == Pages(frames)
      invariant |pagesInMemory| == |frames|
      invariant pageFaults == Count(flags[..i])
    {
      var page := references[i];
      FifoInvariant(references, i, numFrames);
      FifoStepRule(frames, page, numFrames);
      CountStep(flags, i);
      NoDupCard(FifoStep(frames, page, numFrames));
      if page in pagesInMemory {
        continue;
      }
      if HasRoom(|frames|, numFrames) {
        frames := frames + [page];
        pagesInMemory := pagesInMemory + {page};
      } else {
        var pageToRemove := frames[0];
        frames := frames[1..];
        pagesInMemory := pagesInMemory - {pageToRemove};
        frames := frames + [page];
        pagesInMemory := pagesInMemory + {page};
      }
      pageFaults := pageFaults + 1;
    }
    assert flags[..|references|] == flags;
    FifoCompulsory(references, numFrames);
    if numFrames < 0 {
      FifoUnbounded(references, numFrames);
    }
  }
}
