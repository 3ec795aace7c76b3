/** simulateOptimal of mvirtual.cpp: Belady's optimal replacement, which looks ahead in the reference string. */
module Optimal {
  import opened FaultCounting

  /**
   * The position of the next reference to page at or after k; |refs| when it
   * is never referenced again.  The same first-match search as PageTables.Find
   * and Clock.FirstHolding, each written over its own element type.
   */
  function NextUse(refs: seq<int>, page: int, k: nat): (u: nat)
    requires k <= |refs|
    ensures k <= u <= |refs|
    ensures u < |refs| ==> refs[u] == page
    ensures forall m :: k <= m < u ==> refs[m] != page
    decreases |refs| - k
  {
    if k == |refs| then k
    else if refs[k] == page then k
    else NextUse(refs, page, k + 1)
  }

  /**
   * The victim scan of simulateOptimal (the nested loops over frames and
   * later references) from frame j on, with the farthest next use seen so
   * far and the frame that has it (-1 for none yet).
   */
  function VictimScan(frames: seq<int>, refs: seq<int>, i: nat, j: nat, farthest: int, index: int): int
    requires i < |refs| && j <= |frames|
    decreases |frames| - j
  {
    if j == |frames| then
      if index == -1 then 0 else index
    else
      var k := NextUse(refs, frames[j], i + 1);
      if k == |refs| then j
      else if k > farthest then VictimScan(frames, refs, i, j + 1, k, j)
      else VictimScan(frames, refs, i, j + 1, farthest, index)
  }

  /** What the scan keeps true about the frames it has looked at. */
  ghost predicate ScanSoFar(frames: seq<int>, refs: seq<int>, i: nat, j: nat, farthest: int, index: int)
    requires i < |refs| && j <= |frames|
  {
    (j == 0 ==> index == -1 && farthest == i) &&
    (j > 0 ==>
      0 <= index < j && farthest == NextUse(refs, frames[index], i + 1) &&
      (forall m :: 0 <= m < j ==> NextUse(refs, frames[m], i + 1) <= farthest) &&
      (forall m :: 0 <= m < index ==> NextUse(refs, frames[m], i + 1) < farthest)) &&
    (forall m :: 0 <= m < j ==> NextUse(refs, frames[m], i + 1) < |refs|)
  }

  lemma {:induction false} VictimScanRule(frames: seq<int>, refs: seq<int>, i: nat, j: nat, farthest: int, index: int)
    requires i < |refs| && j <= |frames| && 1 <= |frames|
    requires ScanSoFar(frames, refs, i, j, farthest, index)
    ensures var v := VictimScan(frames, refs, i, j, farthest, index);
      0 <= v < |frames| &&
      (forall m :: 0 <= m < |frames| ==> NextUse(refs, frames[m], i + 1) <= NextUse(refs, frames[v], i + 1)) &&
      (forall m :: 0 <= m < v ==> NextUse(refs, frames[m], i + 1) < NextUse(refs, frames[v], i + 1))
    decreases |frames| - j
  {
    if j < |frames| {
      var k := NextUse(refs, frames[j], i + 1);
      if k == |refs| {
      } else if k > farthest {
        VictimScanRule(frames, refs, i, j + 1, k, j);
      } else {
        VictimScanRule(frames, refs, i, j + 1, farthest, index);
      }
    }
  }

  /**
   * The frame to replace when reference i misses and every frame is full: the
   * first frame never referenced again, otherwise the frame whose next
   * reference is farthest (the first of them).  Both cases are one rule:
   * the least index whose next use, counting "never" as |refs|, is largest.
   */
  function Victim(frames: seq<int>, refs: seq<int>, i: nat): (v: nat)
    requires i < |refs| && 1 <= |frames|
    ensures v < |frames|
    ensures forall m :: 0 <= m < |frames| ==> NextUse(refs, frames[m], i + 1) <= NextUse(refs, frames[v], i + 1)
    ensures forall m :: 0 <= m < v ==> NextUse(refs, frames[m], i + 1) < NextUse(refs, frames[v], i + 1)
  {
    VictimScanRule(frames, refs, i, 0, i, -1);
    VictimScan(frames, refs, i, 0, i, -1)
  }

  /** A never-referenced-again frame is preferred: if one exists, the victim is the first of them. */
  lemma VictimPrefersUnused(frames: seq<int>, refs: seq<int>, i: nat, j: nat)
    requires i < |refs| && j < |frames| && NextUse(refs, frames[j], i + 1) == |refs|
    ensures var v := Victim(frames, refs, i);
      NextUse(refs, frames[v], i + 1) == |refs| &&
      forall m :: 0 <= m < v ==> NextUse(refs, frames[m], i + 1) < |refs|
  {
  }

  /** The frames vector after reference i (at index i of refs). */
  function OptimalStep(frames: seq<int>, refs: seq<int>, i: nat, numFrames: int): seq<int>
    requires i < |refs| && numFrames != 0
  {
    if refs[i] in frames then frames
    else if HasRoom(|frames|, numFrames) then frames + [refs[i]]
    else frames[Victim(frames, refs, i) := refs[i]]
  }

  /** The frames vector after the first i references. */
  function OptimalFrames(refs: seq<int>, i: nat, numFrames: int): seq<int>
    requires i <= |refs| && numFrames != 0
  {
    if i == 0 then []
    else OptimalStep(OptimalFrames(refs, i - 1, numFrames), refs, i - 1, numFrames)
  }

  /** Reference i faults exactly when its page is not resident at its turn. */
  function OptimalFaults(refs: seq<int>, numFrames: int): seq<bool>
    requires numFrames != 0
  {
    seq(|refs|, i requires 0 <= i < |refs| => refs[i] !in OptimalFrames(refs, i, numFrames))
  }

  /** A hit changes nothing; a full miss overwrites exactly the victim's frame with the new page. */
  lemma OptimalStepRule(frames: seq<int>, refs: seq<int>, i: nat, numFrames: int)
    requires i < |refs| && numFrames != 0 && WithinFrames(|frames|, numFrames) && NoDup(frames)
    ensures var r := OptimalStep(frames, refs, i, numFrames);
      NoDup(r) && WithinFrames(|r|, numFrames) && refs[i] in r && Pages(r) <= Pages(frames) + {refs[i]} &&
      (refs[i] in frames ==> r == frames) &&
      (refs[i] !in frames && HasRoom(|frames|, numFrames) ==>
        r == frames + [refs[i]] && Pages(r) == Pages(frames) + {refs[i]}) &&
      (refs[i] !in frames && !HasRoom(|frames|, numFrames) ==>
        var v := Victim(frames, refs, i);
        |frames| == numFrames && |r| == |frames| && r[v] == refs[i] &&
        (forall m :: 0 <= m < |frames| && m != v ==> r[m] == frames[m]) &&
        Pages(r) == Pages(frames) - {frames[v]} + {refs[i]})
  {
    var r := OptimalStep(frames, refs, i, numFrames);
    if refs[i] !in frames && HasRoom(|frames|, numFrames) {
      NoDupSnoc(frames, refs[i]);
      PagesSnoc(frames, refs[i]);
    } else if refs[i] !in frames {
      var v := Victim(frames, refs, i);
      assert r == frames[v := refs[i]];
      Overwrite(frames, v, refs[i]);
    }
  }

  /** The part of the step rule the invariant needs: no duplicates, and only the referenced page comes in. */
  lemma OptimalStepKeeps(frames: seq<int>, refs: seq<int>, i: nat, numFrames: int)
    requires i < |refs| && numFrames != 0 && WithinFrames(|frames|, numFrames) && NoDup(frames)
    ensures var r := OptimalStep(frames, refs, i, numFrames);
      NoDup(r) && WithinFrames(|r|, numFrames) && Pages(r) <= Pages(frames) + {refs[i]} &&
      (numFrames < 0 ==> Pages(r) == Pages(frames) + {refs[i]})
  {
    OptimalStepRule(frames, refs, i, numFrames);
  }

  /** The frames never hold a page twice, never outgrow numFrames, and hold only referenced pages. */
  lemma {:induction false} OptimalInvariant(refs: seq<int>, i: nat, numFrames: int)
    requires i <= |refs| && numFrames != 0
    ensures var f := OptimalFrames(refs, i, numFrames);
      NoDup(f) && WithinFrames(|f|, numFrames) && Pages(f) <= Pages(refs[..i]) &&
      (numFrames < 0 ==> Pages(f) == Pages(refs[..i]))
  {
    if i > 0 {
      OptimalInvariant(refs, i - 1, numFrames);
      OptimalStepKeeps(OptimalFrames(refs, i - 1, numFrames), refs, i - 1, numFrames);
      assert refs[..i] == refs[..i - 1] + [refs[i - 1]];
    }
  }

  /** The first reference to a page always faults. */
  lemma OptimalFirstReferenceFaults(refs: seq<int>, numFrames: int, i: nat)
    requires numFrames != 0 && i < |refs| && FirstUse(refs, i)
    ensures OptimalFaults(refs, numFrames)[i]
  {
    OptimalInvariant(refs, i, numFrames);
    assert refs[i] !in Pages(refs[..i]);
  }

  /** The optimal policy still faults at least once per distinct page. */
  lemma OptimalCompulsory(refs: seq<int>, numFrames: int)
    requires numFrames != 0
    ensures Count(OptimalFaults(refs, numFrames)) >= |Pages(refs)|
  {
    forall i | 0 <= i < |refs| && FirstUse(refs, i)
      ensures OptimalFaults(refs, numFrames)[i]
    {
      OptimalFirstReferenceFaults(refs, numFrames, i);
    }
    CompulsoryMisses(refs, OptimalFaults(refs, numFrames));
  }

  /** With a negative frame count the optimal policy never evicts and faults exactly once per distinct page. */
  lemma OptimalUnbounded(refs: seq<int>, numFrames: int)
    requires numFrames < 0
    ensures Count(OptimalFaults(refs, numFrames)) == |Pages(refs)|
  {
    forall i | 0 <= i < |refs|
      ensures OptimalFaults(refs, numFrames)[i] <==> FirstUse(refs, i)
    {
      OptimalInvariant(refs, i, numFrames);
      assert (refs[i] in OptimalFrames(refs, i, numFrames)) == (refs[i] in Pages(refs[..i]));
    }
    OnlyCompulsoryMisses(refs, OptimalFaults(refs, numFrames));
  }

  /** The nested victim-selection loops of simulateOptimal, for a miss at reference i with every frame full. */
  method ChooseVictim(frames: seq<int>, references: seq<int>, i: nat) returns (indexToReplace: int)
    requires i < |references| && 1 <= |frames|
    ensures indexToReplace == Victim(frames, references, i)
  {
    var farthest: int := i;
    indexToReplace := -1;
    var j := 0;
    while j < |frames|
      invariant 0 <= j <= |frames|
      invariant VictimScan(frames, references, i, j, farthest, indexToReplace) == Victim(frames, references, i)
    {
      var k := i + 1;
      while k < |references|
        invariant i + 1 <= k <= |references|
        invariant NextUse(references, frames[j], k) == NextUse(references, frames[j], i + 1)
      {
        if frames[j] == references[k] {
          if k > farthest {
            farthest := k;
            indexToReplace := j;
          }
          break;
        }
        k := k + 1;
      }
      if k == |references| {
        indexToReplace := j;
        break;
      }
      j := j + 1;
    }
    if indexToReplace == -1 {
      indexToReplace := 0;
    }
  }

  /** simulateOptimal: counts exactly the references whose page is not resident at their turn. */
  method SimulateOptimal(references: seq<int>, numFrames: int) returns (pageFaults: nat)
    requires numFrames != 0
    ensures pageFaults == Count(OptimalFaults(references, numFrames))
    ensures |Pages(references)| <= pageFaults <= |references|
    ensures numFrames < 0 ==> pageFaults == |Pages(references)|
  {
    pageFaults := 0;
    var frames: seq<int> := [];
    ghost var flags := OptimalFaults(references, numFrames);
    for i := 0 to |references|
      invariant frames == OptimalFrames(references, i, numFrames)
      invariant pageFaults == Count(flags[..i])
    {
      var page := references[i];
      CountStep(flags, i);
      if page in frames {
        continue;
      }
      if HasRoom(|frames|, numFrames) {
        frames := frames + [page];
      } else {
        var indexToReplace := ChooseVictim(frames, references, i);
        frames := frames[indexToReplace := page];
      }
      pageFaults := pageFaults + 1;
    }
    assert flags[..|references|] == flags;
    OptimalCompulsory(references, numFrames);
    if numFrames < 0 {
      OptimalUnbounded(references, numFrames);
    }
  }
}
