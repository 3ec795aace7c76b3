/**
 * Vocabulary shared by the four page-replacement simulators of mvirtual.cpp:
 * resident frame lists without duplicates, the per-reference fault flags and
 * their count, and the compulsory-miss bound that every simulator meets.
 */
module FaultCounting {

  /** No page occupies two frames. */
  predicate NoDup(s: seq<int>)
  {
    forall i, j :: 0 <= i < j < |s| ==> s[i] != s[j]
  }

  /** The distinct pages of a reference string (or of a frame list). */
  function Pages(s: seq<int>): set<int>
  {
    set x | x in s
  }

  /** A frame list without duplicates holds exactly as many pages as it has entries. */
  lemma {:induction false} NoDupCard(s: seq<int>)
    requires NoDup(s)
    ensures |Pages(s)| == |s|
  {
    if s != [] {
      var m := |s| - 1;
      assert Pages(s) == Pages(s[..m]) + {s[m]};
      assert s[m] !in Pages(s[..m]);
      NoDupCard(s[..m]);
    }
  }

  /** The pages of a concatenation are the pages of its parts. */
  lemma PagesConcat(a: seq<int>, b: seq<int>)
    ensures Pages(a + b) == Pages(a) + Pages(b)
  {
    assert forall x :: x in a + b <==> x in a || x in b;
  }

  /** Putting a page that is not resident in front of a list without duplicates keeps it without duplicates. */
  lemma NoDupCons(x: int, s: seq<int>)
    requires NoDup(s) && x !in s
    ensures NoDup([x] + s)
  {
    var r := [x] + s;
    forall i, j | 0 <= i < j < |r|
      ensures r[i] != r[j]
    {
      assert r[j] == s[j - 1];
      if i > 0 {
        assert r[i] == s[i - 1];
      }
    }
  }

  /**
   * The test frames.size() < num_frames of the simulators.  num_frames is an
   * int compared against an unsigned size, so a negative count converts to a
   * bound no list of int pages reaches: there is always room.
   */
  predicate HasRoom(size: nat, numFrames: int)
  {
    numFrames < 0 || size < numFrames
  }

  /** The bound a simulator keeps on its frames: numFrames when positive, none when negative. */
  predicate WithinFrames(size: nat, numFrames: int)
  {
    numFrames < 0 || size <= numFrames
  }

  /** Appending a page that is not resident to a list without duplicates keeps it without duplicates. */
  lemma NoDupSnoc(s: seq<int>, x: int)
    requires NoDup(s) && x !in s
    ensures NoDup(s + [x])
  {
    var r := s + [x];
    forall i, j | 0 <= i < j < |r|
      ensures r[i] != r[j]
    {
      assert r[i] == s[i];
      if j < |s| {
        assert r[j] == s[j];
      }
    }
  }

  /** Overwriting one frame of a list without duplicates with a page it does not hold swaps that page in. */
  lemma Overwrite(frames: seq<int>, v: nat, x: int)
    requires NoDup(frames) && v < |frames| && x !in frames
    ensures NoDup(frames[v := x])
    ensures Pages(frames[v := x]) == Pages(frames) - {frames[v]} + {x}
  {
    var r := frames[v := x];
    forall y | y in Pages(frames) - {frames[v]}
      ensures y in Pages(r)
    {
      var m :| 0 <= m < |frames| && frames[m] == y;
      assert r[m] == y;
    }
    forall y | y in Pages(r)
      ensures y in Pages(frames) - {frames[v]} + {x}
    {
      var m :| 0 <= m < |r| && r[m] == y;
      if m != v {
        assert frames[m] == y;
      }
    }
    assert r[v] == x;
  }

  /** The number of faults recorded in a sequence of per-reference fault flags. */
  function Count(flags: seq<bool>): (c: nat)
    ensures c <= |flags|
  {
    if flags == [] then 0
    else Count(flags[..|flags| - 1]) + (if flags[|flags| - 1] then 1 else 0)
  }

  /** Counting one more reference adds one exactly when that reference faulted. */
  lemma CountStep(flags: seq<bool>, i: nat)
    requires i < |flags|
    ensures Count(flags[..i + 1]) == Count(flags[..i]) + (if flags[i] then 1 else 0)
  {
    assert flags[..i + 1][..i] == flags[..i];
  }

  /** Reference i is the first reference to its page. */
  predicate FirstUse(refs: seq<int>, i: nat)
    requires i < |refs|
  {
    refs[i] !in refs[..i]
  }

  /** Appending a page adds it to the pages, and adds one to their number exactly when it is new. */
  lemma PagesSnoc(s: seq<int>, x: int)
    ensures Pages(s + [x]) == Pages(s) + {x}
    ensures |Pages(s + [x])| == |Pages(s)| + (if x in s then 0 else 1)
  {
    PagesConcat(s, [x]);
    assert Pages([x]) == {x};
  }

  /**
   * Compulsory misses: when the first reference to every page faults, there
   * are at least as many faults as distinct pages.
   */
  lemma {:induction false} CompulsoryMisses(refs: seq<int>, flags: seq<bool>)
    requires |flags| == |refs|
    requires forall i :: 0 <= i < |refs| && FirstUse(refs, i) ==> flags[i]
    ensures Count(flags) >= |Pages(refs)|
  {
    if refs != [] {
      var m := |refs| - 1;
      var pre, last, early := refs[..m], refs[m], flags[..m];
      forall i | 0 <= i < m && FirstUse(pre, i)
        ensures early[i]
      {
        assert pre[..i] == refs[..i];
        assert FirstUse(refs, i);
      }
      CompulsoryMisses(pre, early);
      assert refs == pre + [last];
      PagesSnoc(pre, last);
      assert early == flags[..|flags| - 1];
      if last !in pre {
        assert FirstUse(refs, m);
      }
    }
  }

  /**
   * When exactly the first reference to each page faults, the faults are
   * exactly the distinct pages.
   */
  lemma {:induction false} OnlyCompulsoryMisses(refs: seq<int>, flags: seq<bool>)
    requires |flags| == |refs|
    requires forall i :: 0 <= i < |refs| ==> (flags[i] <==> FirstUse(refs, i))
    ensures Count(flags) == |Pages(refs)|
  {
    if refs != [] {
      var m := |refs| - 1;
      var pre, last, early := refs[..m], refs[m], flags[..m];
      forall i | 0 <= i < m
        ensures early[i] <==> FirstUse(pre, i)
      {
        assert pre[..i] == refs[..i];
        assert FirstUse(pre, i) == FirstUse(refs, i);
      }
      OnlyCompulsoryMisses(pre, early);
      assert refs == pre + [last];
      PagesSnoc(pre, last);
      assert early == flags[..|flags| - 1];
      assert flags[m] == FirstUse(refs, m);
    }
  }
}
