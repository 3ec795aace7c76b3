/**
 * PageTable of mvirtual.cpp: a hash table with separate chaining, a vector of
 * lists of (page number, valid bit) entries, with the page number modulo the
 * table size as the hash.
 */
module PageTables {

  datatype PageTableEntry = PageTableEntry(pageNumber: int, valid: bool)

  /** The pages a bucket reports valid. */
  function BucketPages(bucket: seq<PageTableEntry>): set<int>
  {
    set k | 0 <= k < |bucket| && bucket[k].valid :: bucket[k].pageNumber
  }

  /** The pages the whole table reports valid. */
  function TablePages(buckets: seq<seq<PageTableEntry>>): set<int>
  {
    set i, p | 0 <= i < |buckets| && p in BucketPages(buckets[i]) :: p
  }

  /**
   * The index of the first entry for page in the bucket, or |bucket| when
   * there is none: the search of insert's loop over a bucket of page-table
   * entries (Clock.FirstHolding is the same search over clock frames).
   */
  function Find(bucket: seq<PageTableEntry>, page: int, k: nat): (j: nat)
    requires k <= |bucket|
    ensures k <= j <= |bucket|
    ensures j < |bucket| ==> bucket[j].pageNumber == page
    ensures forall m :: k <= m < j ==> bucket[m].pageNumber != page
    decreases |bucket| - k
  {
    if k == |bucket| then k
    else if bucket[k].pageNumber == page then k
    else Find(bucket, page, k + 1)
  }

  /** list::remove_if on "entry.page_number == page": every entry for page dropped, the others kept in order. */
  function RemoveEntries(bucket: seq<PageTableEntry>, page: int): (r: seq<PageTableEntry>)
    ensures |r| <= |bucket|
    ensures forall e :: e in r <==> e in bucket && e.pageNumber != page
  {
    if bucket == [] then []
    else if bucket[0].pageNumber == page then RemoveEntries(bucket[1..], page)
    else [bucket[0]] + RemoveEntries(bucket[1..], page)
  }

  /** Bucket index of every entry agrees with its hash, and a bucket holds at most one entry per page. */
  predicate BucketOk(bucket: seq<PageTableEntry>, index: nat, size: nat)
    requires size > 0
  {
    (forall k :: 0 <= k < |bucket| ==> bucket[k].pageNumber >= 0 && bucket[k].pageNumber % size == index) &&
    (forall j, k :: 0 <= j < k < |bucket| ==> bucket[j].pageNumber != bucket[k].pageNumber)
  }

  lemma {:induction false} RemoveEntriesKeepsBucket(bucket: seq<PageTableEntry>, page: int, index: nat, size: nat)
    requires size > 0 && BucketOk(bucket, index, size)
    ensures BucketOk(RemoveEntries(bucket, page), index, size)
  {
    if bucket != [] {
      RemoveEntriesKeepsBucket(bucket[1..], page, index, size);
      assert bucket[0] !in bucket[1..];
      var r := RemoveEntries(bucket, page);
      if bucket[0].pageNumber != page {
        forall k | 0 < k < |r|
          ensures r[0].pageNumber != r[k].pageNumber
        {
          assert r[k] in bucket[1..];
        }
      }
    }
  }

  /** Removing page's entries drops page from the bucket's valid pages and keeps all others. */
  lemma RemoveEntriesPages(bucket: seq<PageTableEntry>, page: int)
    ensures BucketPages(RemoveEntries(bucket, page)) == BucketPages(bucket) - {page}
  {
    var r := RemoveEntries(bucket, page);
    forall p | p in BucketPages(bucket) - {page}
      ensures p in BucketPages(r)
    {
      var k :| 0 <= k < |bucket| && bucket[k].valid && bucket[k].pageNumber == p;
      assert bucket[k] in r;
    }
    forall p | p in BucketPages(r)
      ensures p in BucketPages(bucket) - {page}
    {
      var k :| 0 <= k < |r| && r[k].valid && r[k].pageNumber == p;
      assert r[k] in bucket;
    }
  }

  /** A bucket whose pages grow by one page grows the table's pages by that page. */
  lemma TablePagesAdd(buckets: seq<seq<PageTableEntry>>, index: nat, bucket: seq<PageTableEntry>, page: int)
    requires index < |buckets| && BucketPages(bucket) == BucketPages(buckets[index]) + {page}
    ensures TablePages(buckets[index := bucket]) == TablePages(buckets) + {page}
  {
    var after := buckets[index := bucket];
    assert page in BucketPages(after[index]);
    forall p | p in TablePages(buckets)
      ensures p in TablePages(after)
    {
      var i :| 0 <= i < |buckets| && p in BucketPages(buckets[i]);
      assert p in BucketPages(after[i]);
    }
  }

  /** A bucket that loses page loses it from the table, when no other bucket holds it. */
  lemma TablePagesRemove(buckets: seq<seq<PageTableEntry>>, index: nat, bucket: seq<PageTableEntry>, page: int)
    requires index < |buckets| && BucketPages(bucket) == BucketPages(buckets[index]) - {page}
    requires forall i :: 0 <= i < |buckets| && i != index ==> page !in BucketPages(buckets[i])
    ensures TablePages(buckets[index := bucket]) == TablePages(buckets) - {page}
  {
    var after := buckets[index := bucket];
    forall p | p in TablePages(buckets) - {page}
      ensures p in TablePages(after)
    {
      var i :| 0 <= i < |buckets| && p in BucketPages(buckets[i]);
      assert p in BucketPages(after[i]);
    }
  }

  class PageTable {
    const tableSize: nat
    /** The vector of bucket lists; a list is a value that insert and remove replace. */
    const table: array<seq<PageTableEntry>>

    ghost predicate Valid()
      reads this, table
    {
      tableSize > 0 && table.Length == tableSize &&
      forall i :: 0 <= i < tableSize ==> BucketOk(table[i], i, tableSize)
    }

    /** The pages for which isValid answers true. */
    ghost function ValidPages(): set<int>
      reads this, table
    {
      TablePages(table[..])
    }

    /** A vector of size empty lists; a table of size 0 can be built, but hashing into it divides by zero. */
    constructor (size: nat)
      ensures fresh(table) && tableSize == size && table.Length == size
      ensures forall i :: 0 <= i < size ==> table[i] == []
      ensures size > 0 ==> Valid()
      ensures ValidPages() == {}
    {
      tableSize := size;
      table := new seq<PageTableEntry>[size](_ => []);
    }

    /** hashFunction: page number modulo the table size, always a bucket index. */
    function HashFunction(pageNumber: int): (index: nat)
      requires tableSize > 0 && pageNumber >= 0
      ensures index < tableSize
      ensures pageNumber < tableSize ==> index == pageNumber
    {
      pageNumber % tableSize
    }

    /** An entry for page can only be in the bucket page hashes to. */
    lemma OnlyInItsBucket(page: int, i: nat)
      requires Valid() && page >= 0 && i < tableSize && i != HashFunction(page)
      ensures page !in BucketPages(table[i])
      ensures forall k :: 0 <= k < |table[i]| ==> table[i][k].pageNumber != page
    {
      assert BucketOk(table[i], i, tableSize);
    }

    /** isValid: true exactly for the pages inserted and not removed since. */
    method IsValid(pageNumber: int) returns (r: bool)
      requires Valid() && pageNumber >= 0
      ensures r <==> pageNumber in ValidPages()
    {
      var index := HashFunction(pageNumber);
      var bucket := table[index];
      for k := 0 to |bucket|
        invariant forall j :: 0 <= j < k ==> !(bucket[j].pageNumber == pageNumber && bucket[j].valid)
      {
        if bucket[k].pageNumber == pageNumber && bucket[k].valid {
          assert pageNumber in BucketPages(table[..][index]);
          return true;
        }
      }
      forall i | 0 <= i < table.Length
        ensures pageNumber !in BucketPages(table[..][i])
      {
        if i != index {
          OnlyInItsBucket(pageNumber, i);
        }
      }
      return false;
    }

    /**
     * insert: marks an existing entry for the page valid, or appends a new
     * valid entry; only the page's bucket changes.
     */
    method Insert(pageNumber: int)
      requires Valid() && pageNumber >= 0
      modifies table
      ensures Valid()
      ensures ValidPages() == old(ValidPages()) + {pageNumber}
      ensures var index := HashFunction(pageNumber);
        var k := Find(old(table[index]), pageNumber, 0);
        table[..] == old(table[..])[index :=
          if k < |old(table[index])| then old(table[index])[k := PageTableEntry(pageNumber, true)]
          else old(table[index]) + [PageTableEntry(pageNumber, true)]]
    {
      var index := HashFunction(pageNumber);
      var bucket := table[index];
      ghost var buckets := table[..];
      for k := 0 to |bucket|
        invariant table[..] == buckets
        invariant Find(bucket, pageNumber, k) == Find(bucket, pageNumber, 0)
      {
        if bucket[k].pageNumber == pageNumber {
          var updated := bucket[k := bucket[k].(valid := true)];
          assert BucketPages(updated) == BucketPages(bucket) + {pageNumber} by {
            forall p | p in BucketPages(bucket)
              ensures p in BucketPages(updated)
            {
              var m :| 0 <= m < |bucket| && bucket[m].valid && bucket[m].pageNumber == p;
              assert updated[m].valid && updated[m].pageNumber == p;
            }
            assert updated[k].valid;
          }
          TablePagesAdd(buckets, index, updated, pageNumber);
          table[index] := updated;
          assert table[..] == buckets[index := updated];
          return;
        }
      }
      var updated := bucket + [PageTableEntry(pageNumber, true)];
      assert BucketPages(updated) == BucketPages(bucket) + {pageNumber} by {
        forall p | p in BucketPages(bucket)
          ensures p in BucketPages(updated)
        {
          var m :| 0 <= m < |bucket| && bucket[m].valid && bucket[m].pageNumber == p;
          assert updated[m] == bucket[m];
        }
        assert updated[|bucket|].valid;
      }
      TablePagesAdd(buckets, index, updated, pageNumber);
      table[index] := updated;
      assert table[..] == buckets[index := updated];
    }

    /** remove: drops every entry for the page from its bucket; only that bucket changes. */
    method Remove(pageNumber: int)
      requires Valid() && pageNumber >= 0
      modifies table
      ensures Valid()
      ensures ValidPages() == old(ValidPages()) - {pageNumber}
      ensures var index := HashFunction(pageNumber);
        table[..] == old(table[..])[index := RemoveEntries(old(table[index]), pageNumber)]
    {
      var index := HashFunction(pageNumber);
      ghost var buckets := table[..];
      var updated := RemoveEntries(table[index], pageNumber);
      RemoveEntriesKeepsBucket(table[index], pageNumber, index, tableSize);
      RemoveEntriesPages(table[index], pageNumber);
      forall i | 0 <= i < |buckets| && i != index
        ensures pageNumber !in BucketPages(buckets[i])
      {
        OnlyInItsBucket(pageNumber, i);
      }
      TablePagesRemove(buckets, index, updated, pageNumber);
      table[index] := updated;
      assert table[..] == buckets[index := updated];
    }
  }
}
