/** simulateLRU of mvirtual.cpp: least-recently-used page replacement over a list, most recent first. */
module Lru {
  import opened FaultCounting

  /** list::remove: every occurrence of x dropped, the rest kept in order. */
  function RemoveAll(s: seq<int>, x: int): (r: seq<int>)
    ensures |r| <= |s|
  {
    if s == [] then []
    else if s[0] == x then RemoveAll(s[1..], x)
    else [s[0]] + RemoveAll(s[1..], x)
  }

  /** Removing x from a list removes it from the pages it holds and nothing else. */
  lemma RemoveAllPages(s: seq<int>, x: int)
    ensures Pages(RemoveAll(s, x)) == Pages(s) - {x}
  {
    RemoveAllMembers(s, x);
    forall y
      ensures y in Pages(RemoveAll(s, x)) <==> y in Pages(s) - {x}
    {
    }
  }

  /** Moving or pushing x to the front of a list without duplicates keeps it without duplicates and adds x to its pages. */
  lemma PushFront(older: seq<int>, x: int)
    requires NoDup(older)
    ensures NoDup([x] + RemoveAll(older, x))
    ensures Pages([x] + RemoveAll(older, x)) == Pages(older) + {x}
  {
    RemoveAllNoDup(older, x);
    RemoveAllPages(older, x);
    NoDupCons(x, RemoveAll(older, x));
    PagesConcat([x], RemoveAll(older, x));
    assert Pages([x]) == {x};
  }

  /** list::remove keeps exactly the pages other than x. */
  lemma {:induction false} RemoveAllMembers(s: seq<int>, x: int)
    ensures forall y :: y in RemoveAll(s, x) <==> y in s && y != x
  {
    if s != [] {
      RemoveAllMembers(s[1..], x);
      assert s == [s[0]] + s[1..];
    }
  }

  lemma {:induction false} RemoveAllAbsent(s: seq<int>, x: int)
    requires x !in s
    ensures RemoveAll(s, x) == s
  {
    if s != [] {
      RemoveAllAbsent(s[1..], x);
    }
  }

  lemma {:induction false} RemoveAllNoDup(s: seq<int>, x: int)
    requires NoDup(s)
    ensures NoDup(RemoveAll(s, x))
  {
    if s != [] {
      RemoveAllNoDup(s[1..], x);
      RemoveAllMembers(s[1..], x);
      assert s[0] !in s[1..];
      if s[0] != x {
        NoDupCons(s[0], RemoveAll(s[1..], x));
      }
    }
  }

  /**
   * The list after one reference, most recently used first: a hit moves the
   * page to the front; a miss pushes it to the front, first dropping the back
   * (least recently used) page when all numFrames frames are in use.
   */
  function LruStep(frames: seq<int>, page: int, numFrames: int): seq<int>
    requires numFrames != 0
  {
    if page in frames then [page] + RemoveAll(frames, page)
    else if HasRoom(|frames|, numFrames) then [page] + frames
    else [page] + frames[..|frames| - 1]
  }

  /** The list after the first i references. */
  function LruFrames(refs: seq<int>, i: nat, numFrames: int): seq<int>
    requires i <= |refs| && numFrames != 0
  {
    if i == 0 then [] else LruStep(LruFrames(refs, i - 1, numFrames), refs[i - 1], numFrames)
  }

  /** Reference i faults exactly when its page is not resident at its turn. */
  function LruFaults(refs: seq<int>, numFrames: int): seq<bool>
    requires numFrames != 0
  {
    seq(|refs|, i requires 0 <= i < |refs| => refs[i] !in LruFrames(refs, i, numFrames))
  }

  /** Reference definition: the distinct pages of s ordered by their last use, most recent first. */
  function RecencyOrder(s: seq<int>): (r: seq<int>)
    ensures NoDup(r) && Pages(r) == Pages(s)
  {
    if s == [] then []
    else
      var m := |s| - 1;
      var older := RecencyOrder(s[..m]);
      PushFront(older, s[m]);
      assert s == s[..m] + [s[m]];
      PagesSnoc(s[..m], s[m]);
      [s[m]] + RemoveAll(older, s[m])
  }

  /** The first n entries of s (all of s when it is shorter, or when n is negative and so bounds nothing). */
  function Take(s: seq<int>, n: int): seq<int>
  {
    if n < 0 || |s| <= n then s else s[..n]
  }

  /** Deleting a page that sits at position p of a duplicate-free list splices it out. */
  lemma {:induction false} RemoveAt(s: seq<int>, p: nat)
    requires NoDup(s) && p < |s|
    ensures RemoveAll(s, s[p]) == s[..p] + s[p + 1..]
  {
    var t := s[1..];
    assert NoDup(t);
    if p == 0 {
      assert s[0] !in t;
      RemoveAllAbsent(t, s[0]);
    } else {
      assert s[0] != s[p] && t[p - 1] == s[p];
      RemoveAt(t, p - 1);
      assert s[..p] == [s[0]] + t[..p - 1];
      assert s[p + 1..] == t[p..];
    }
  }

  /** Splicing position p out of s and then keeping n - 1 entries equals splicing it out of the first n. */
  lemma SpliceTake(s: seq<int>, p: nat, n: nat, x: int)
    requires p < n < |s|
    ensures ([x] + (s[..p] + s[p + 1..]))[..n] == [x] + (s[..n][..p] + s[..n][p + 1..])
  {
    assert s[..n][..p] == s[..p];
    assert s[..n][p + 1..] == s[p + 1..n];
    assert (s[..p] + s[p + 1..])[..n - 1] == s[..p] + s[p + 1..n];
  }

  /** A hit among the first n pages moves it to the front of both lists. */
  lemma TakeHit(r: seq<int>, x: int, n: nat)
    requires NoDup(r) && n >= 1 && x in Take(r, n)
    ensures LruStep(Take(r, n), x, n) == Take([x] + RemoveAll(r, x), n)
  {
    var f := Take(r, n);
    var p :| 0 <= p < |f| && f[p] == x;
    assert r[p] == x;
    RemoveAt(r, p);
    if |r| > n {
      assert f == r[..n];
      assert NoDup(f);
      RemoveAt(f, p);
      SpliceTake(r, p, n, x);
    }
  }

  /** A page used long ago (beyond the first n) re-enters at the front and pushes out the n-th page. */
  lemma TakeStale(r: seq<int>, x: int, n: nat)
    requires NoDup(r) && n >= 1 && x !in Take(r, n) && x in r
    ensures LruStep(Take(r, n), x, n) == Take([x] + RemoveAll(r, x), n)
  {
    var f := Take(r, n);
    var p :| 0 <= p < |r| && r[p] == x;
    assert p >= n;
    RemoveAt(r, p);
    assert (r[..p] + r[p + 1..])[..n - 1] == r[..n - 1];
    assert f[..|f| - 1] == r[..n - 1];
  }

  /** A page never used before enters at the front, pushing out the n-th page when there are n already. */
  lemma TakeNew(r: seq<int>, x: int, n: nat)
    requires NoDup(r) && n >= 1 && x !in r
    ensures LruStep(Take(r, n), x, n) == Take([x] + RemoveAll(r, x), n)
  {
    RemoveAllAbsent(r, x);
    if |r| >= n {
      var f := Take(r, n);
      assert f == r[..n];
      assert x !in f;
      assert LruStep(f, x, n) == [x] + r[..n - 1];
      assert ([x] + r)[..n] == [x] + r[..n - 1];
    }
  }

  /** Without a bound the LRU list is the whole recency order: a step moves or pushes x to the front. */
  lemma TakeAll(r: seq<int>, x: int, n: int)
    requires NoDup(r) && n < 0
    ensures LruStep(Take(r, n), x, n) == Take([x] + RemoveAll(r, x), n)
  {
    if x !in r {
      RemoveAllAbsent(r, x);
    }
  }

  /** One LRU step on the first n pages of the recency order is the first n pages of the next recency order. */
  lemma LruStepTakesRecent(r: seq<int>, x: int, n: int)
    requires NoDup(r) && n != 0
    ensures LruStep(Take(r, n), x, n) == Take([x] + RemoveAll(r, x), n)
  {
    if n < 0 {
      TakeAll(r, x, n);
    } else if x in Take(r, n) {
      TakeHit(r, x, n);
    } else if x in r {
      TakeStale(r, x, n);
    } else {
      TakeNew(r, x, n);
    }
  }

  /** The LRU list after i references is exactly the numFrames most recently used distinct pages, most recent first. */
  lemma {:induction false} LruIsRecency(refs: seq<int>, i: nat, numFrames: int)
    requires i <= |refs| && numFrames != 0
    ensures LruFrames(refs, i, numFrames) == Take(RecencyOrder(refs[..i]), numFrames)
  {
    if i > 0 {
      LruIsRecency(refs, i - 1, numFrames);
      assert refs[..i][..i - 1] == refs[..i - 1];
      LruStepTakesRecent(RecencyOrder(refs[..i - 1]), refs[i - 1], numFrames);
    }
  }

  /** The list never holds a page twice, never outgrows numFrames, and holds only referenced pages. */
  lemma LruInvariant(refs: seq<int>, i: nat, numFrames: int)
    requires i <= |refs| && numFrames != 0
    ensures var f := LruFrames(refs, i, numFrames);
      NoDup(f) && WithinFrames(|f|, numFrames) && Pages(f) <= Pages(refs[..i])
  {
    LruIsRecency(refs, i, numFrames);
    var r := RecencyOrder(refs[..i]);
    if numFrames > 0 && |r| > numFrames {
      assert Pages(r[..numFrames]) <= Pages(r);
    }
  }

  /** A hit moves the page to the front; the resident pages stay the same. */
  lemma LruHitRule(frames: seq<int>, page: int, numFrames: int)
    requires numFrames != 0 && NoDup(frames) && page in frames
    ensures var r := LruStep(frames, page, numFrames);
      r[0] == page && NoDup(r) && |r| == |frames| && Pages(r) == Pages(frames)
  {
    var p :| 0 <= p < |frames| && frames[p] == page;
    var rest := RemoveAll(frames, page);
    RemoveAt(frames, p);
    assert |rest| == |frames| - 1;
    PushFront(frames, page);
  }

  /** A miss with room pushes the page in front; nothing leaves. */
  lemma LruFreeMissRule(frames: seq<int>, page: int, numFrames: int)
    requires numFrames != 0 && NoDup(frames) && HasRoom(|frames|, numFrames) && page !in frames
    ensures var r := LruStep(frames, page, numFrames);
      r[0] == page && NoDup(r) && |r| == |frames| + 1 && Pages(r) == Pages(frames) + {page}
  {
    NoDupCons(page, frames);
    PagesConcat([page], frames);
  }

  /** A miss with every frame in use evicts the back (least recently used) page and pushes the new page in front. */
  lemma LruFullMissRule(frames: seq<int>, page: int, numFrames: int)
    requires numFrames >= 1 && NoDup(frames) && |frames| == numFrames && page !in frames
    ensures var r := LruStep(frames, page, numFrames);
      r[0] == page && NoDup(r) && |r| == |frames| &&
      Pages(r) == Pages(frames) - {frames[|frames| - 1]} + {page}
  {
    var m := |frames| - 1;
    var kept := frames[..m];
    assert frames == kept + [frames[m]];
    assert NoDup(kept);
    assert page !in kept;
    NoDupCons(page, kept);
    PagesConcat(kept, [frames[m]]);
    PagesConcat([page], kept);
    assert frames[m] !in Pages(kept);
  }

  /** A hit moves the page to the front and faults nothing; a full miss evicts the back of the list. */
  lemma LruStepRule(frames: seq<int>, page: int, numFrames: int)
    requires numFrames != 0 && NoDup(frames) && WithinFrames(|frames|, numFrames)
    ensures var r := LruStep(frames, page, numFrames);
      r[0] == page && NoDup(r) && WithinFrames(|r|, numFrames) &&
      (page in frames ==> Pages(r) == Pages(frames) && |r| == |frames|) &&
      (page !in frames && HasRoom(|frames|, numFrames) ==> Pages(r) == Pages(frames) + {page}) &&
      (page !in frames && !HasRoom(|frames|, numFrames) ==>
        |frames| == numFrames && Pages(r) == Pages(frames) - {frames[|frames| - 1]} + {page})
  {
    if page in frames {
      LruHitRule(frames, page, numFrames);
    } else if HasRoom(|frames|, numFrames) {
      LruFreeMissRule(frames, page, numFrames);
    } else {
      LruFullMissRule(frames, page, numFrames);
    }
  }

  /** The first reference to a page always faults. */
  lemma LruFirstReferenceFaults(refs: seq<int>, numFrames: int, i: nat)
    requires numFrames != 0 && i < |refs| && FirstUse(refs, i)
    ensures LruFaults(refs, numFrames)[i]
  {
    LruInvariant(refs, i, numFrames);
    assert refs[i] !in Pages(refs[..i]);
  }

  /** LRU faults at least once per distinct page. */
  lemma LruCompulsory(refs: seq<int>, numFrames: int)
    requires numFrames != 0
    ensures Count(LruFaults(refs, numFrames)) >= |Pages(refs)|
  {
    forall i | 0 <= i < |refs| && FirstUse(refs, i)
      ensures LruFaults(refs, numFrames)[i]
    {
      LruFirstReferenceFaults(refs, numFrames, i);
    }
    CompulsoryMisses(refs, LruFaults(refs, numFrames));
  }

  /** With a negative frame count LRU never evicts and faults exactly once per distinct page. */
  lemma LruUnbounded(refs: seq<int>, numFrames: int)
    requires numFrames < 0
    ensures Count(LruFaults(refs, numFrames)) == |Pages(refs)|
  {
    forall i | 0 <= i < |refs|
      ensures LruFaults(refs, numFrames)[i] <==> FirstUse(refs, i)
    {
      LruIsRecency(refs, i, numFrames);
      assert (refs[i] in LruFrames(refs, i, numFrames)) == (refs[i] in Pages(refs[..i]));
    }
    OnlyCompulsoryMisses(refs, LruFaults(refs, numFrames));
  }

  /**
   * simulateLRU: a list of frames, most recent first, plus the set of
   * resident pages; counts exactly the references whose page is not resident.
   */
  method SimulateLru(references: seq<int>, numFrames: int) returns (pageFaults: nat)
    requires numFrames != 0
    ensures pageFaults == Count(LruFaults(references, numFrames))
    ensures |Pages(references)| <= pageFaults <= |references|
    ensures numFrames < 0 ==> pageFaults == |Pages(references)|
  {
    pageFaults := 0;
    var frames: seq<int> := [];
    var pagesInMemory: set<int> := {};
    ghost var flags := LruFaults(references, numFrames);
    for i := 0 to |references|
      invariant frames == LruFrames(references, i, numFrames)
      invariant pagesInMemory == Pages(frames)
      invariant |pagesInMemory| == |frames|
      invariant pageFaults == Count(flags[..i])
    {
      var page := references[i];
      LruInvariant(references, i, numFrames);
      LruStepRule(frames, page, numFrames);
      CountStep(flags, i);
      NoDupCard(LruStep(frames, page, numFrames));
      if page in pagesInMemory {
        frames := RemoveAll(frames, page);
        frames := [page] + frames;
        continue;
      }
      if HasRoom(|frames|, numFrames) {
        frames := [page] + frames;
        pagesInMemory := pagesInMemory + {page};
      } else {
        var lruPage := frames[|frames| - 1];
        frames := frames[..|frames| - 1];
        pagesInMemory := pagesInMemory - {lruPage};
        frames := [page] + frames;
        pagesInMemory := pagesInMemory + {page};
      }
      pageFaults := pageFaults + 1;
    }
    assert flags[..|references|] == flags;
    LruCompulsory(references, numFrames);
    if numFrames < 0 {
      LruUnbounded(references, numFrames);
    }
  }
}
