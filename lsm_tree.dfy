/**
 * A toy log-structured-merge key-value store (lsm_tree/lsm_tree.py).
 *
 * Writes go to a mutable memtable; when the memtable holds as many keys as
 * its size limit, it is flushed as a new immutable sstable appended to a
 * chain kept oldest first. Reads consult the memtable, then the sstables
 * newest to oldest. A delete writes the sentinel string "<deleted>", and
 * compaction folds the chain into at most one sstable without sentinels.
 */
module Lsm {
  import opened Wrappers

  /** The sentinel value written by a delete; a key holding it reads as absent. */
  const Tombstone: string := "<deleted>"

  /** The memtable size limit the constructor uses when none is given. */
  const DefaultMemtableSizeLimit: int := 10

  /** A memtable or an sstable: a dictionary from key to stored value. */
  type Table = map<string, string>

  function Last(s: seq<Table>): Table
    requires s != []
  {
    s[|s| - 1]
  }

  function DropLast(s: seq<Table>): seq<Table>
    requires s != []
  {
    s[..|s| - 1]
  }

  /** What a read reports for a stored value: nothing for the sentinel. */
  function Visible(v: string): Option<string>
  {
    if v == Tombstone then None else Some(v)
  }

  /** Reference read of a chain: the newest sstable holding the key decides. */
  function LookupTables(sstables: seq<Table>, key: string): Option<string>
    decreases |sstables|
  {
    if sstables == [] then None
    else if key in Last(sstables) then Visible(Last(sstables)[key])
    else LookupTables(DropLast(sstables), key)
  }

  /** Reference read of the store: the memtable shadows every sstable. */
  function Lookup(memtable: Table, sstables: seq<Table>, key: string): Option<string>
  {
    if key in memtable then Visible(memtable[key]) else LookupTables(sstables, key)
  }

  /** The chain folded oldest to newest, so that a newer table overrides an older one. */
  function Merge(sstables: seq<Table>): Table
    decreases |sstables|
  {
    if sstables == [] then map[] else Merge(DropLast(sstables)) + Last(sstables)
  }

  /** The entries of a table whose value is not the sentinel. */
  function DropTombstones(t: Table): Table
  {
    map k | k in t && t[k] != Tombstone :: t[k]
  }

  /** The chain that compaction leaves behind. */
  function Compacted(sstables: seq<Table>): seq<Table>
  {
    if |sstables| <= 1 then sstables
    else
      var live := DropTombstones(Merge(sstables));
      if live == map[] then [] else [live]
  }

  /** The merged table holds exactly the keys some sstable of the chain holds. */
  lemma {:induction false} MergeKeys(sstables: seq<Table>, key: string)
    ensures key in Merge(sstables) <==> exists i :: 0 <= i < |sstables| && key in sstables[i]
    decreases |sstables|
  {
    if sstables != [] {
      MergeKeys(DropLast(sstables), key);
      if key in Merge(sstables) && key !in Last(sstables) {
        var i :| 0 <= i < |DropLast(sstables)| && key in DropLast(sstables)[i];
        assert key in sstables[i];
      }
      if key !in Last(sstables) {
        forall i | 0 <= i < |sstables| && key in sstables[i]
          ensures key in Merge(DropLast(sstables))
        {
          assert i < |sstables| - 1;
          assert key in DropLast(sstables)[i];
        }
      }
    }
  }

  /**
   * Reading a chain newest to oldest gives what the oldest-to-newest fold
   * holds for the key: the read that compaction must preserve.
   */
  lemma {:induction false} LookupTablesReadsMerge(sstables: seq<Table>, key: string)
    ensures LookupTables(sstables, key)
         == if key in Merge(sstables) then Visible(Merge(sstables)[key]) else None
    decreases |sstables|
  {
    if sstables != [] {
      LookupTablesReadsMerge(DropLast(sstables), key);
    }
  }

  /** Compaction preserves every read, whatever the memtable holds. */
  lemma CompactPreservesLookup(memtable: Table, sstables: seq<Table>, key: string)
    ensures Lookup(memtable, Compacted(sstables), key) == Lookup(memtable, sstables, key)
  {
    if |sstables| > 1 && key !in memtable {
      LookupTablesReadsMerge(sstables, key);
      var merged := Merge(sstables);
      var live := DropTombstones(merged);
      assert key in merged && merged[key] != Tombstone ==> key in live;
      if live != map[] {
        assert Compacted(sstables) == [live];
        assert DropLast([live]) == [];
        assert LookupTables([live], key) == if key in live then Visible(live[key]) else None;
      }
    }
  }

  /**
   * The shape of the compacted chain: at most one sstable; when there was
   * more than one to merge, no sentinel survives, no stray key appears, and
   * the chain is empty exactly when every merged value was the sentinel.
   */
  lemma CompactedShape(sstables: seq<Table>)
    ensures |Compacted(sstables)| <= 1
    ensures |sstables| <= 1 ==> Compacted(sstables) == sstables
    ensures |sstables| > 1 ==>
      forall t, k :: t in Compacted(sstables) && k in t ==> t[k] != Tombstone && k in Merge(sstables)
    ensures |sstables| > 1 ==>
      (Compacted(sstables) == [] <==> forall k :: k in Merge(sstables) ==> Merge(sstables)[k] == Tombstone)
  {
    if |sstables| > 1 {
      var merged := Merge(sstables);
      forall k | k in merged && merged[k] != Tombstone ensures k in DropTombstones(merged) {
      }
    }
  }

  /** A second compaction changes nothing. */
  lemma CompactIdempotent(sstables: seq<Table>)
    ensures Compacted(Compacted(sstables)) == Compacted(sstables)
  {
    CompactedShape(sstables);
  }

  /** Moving a memtable to the end of the chain leaves every read unchanged. */
  lemma FlushPreservesLookup(memtable: Table, sstables: seq<Table>, key: string)
    ensures Lookup(map[], sstables + [memtable], key) == Lookup(memtable, sstables, key)
  {
    assert DropLast(sstables + [memtable]) == sstables;
  }

  /** The store: a memtable in front of a chain of sstables, oldest first. */
  class LSMTree {
    const memtableSizeLimit: int
    var memtable: Table
    var sstables: seq<Table>

    /** Flushing leaves the memtable below its limit (when the limit is positive). */
    ghost predicate MemtableBelowLimit()
      reads this
    {
      memtableSizeLimit >= 1 ==> |memtable| < memtableSizeLimit
    }

    /** Only a non-empty memtable is ever flushed, and compaction never stores an empty table. */
    ghost predicate NoEmptySSTable()
      reads this
    {
      forall i :: 0 <= i < |sstables| ==> sstables[i] != map[]
    }

    ghost predicate Valid()
      reads this
    {
      MemtableBelowLimit() && NoEmptySSTable()
    }

    constructor (memtableSizeLimit: int := DefaultMemtableSizeLimit)
      ensures Valid()
      ensures this.memtableSizeLimit == memtableSizeLimit
      ensures memtable == map[] && sstables == []
    {
      this.memtableSizeLimit := memtableSizeLimit;
      memtable := map[];
      sstables := [];
    }

    /** Stores val under key; flushes when the memtable reaches its limit. */
    method Put(key: string, val: string)
      requires Valid()
      modifies this
      ensures Valid()
      ensures var written := old(memtable)[key := val];
        if |written| >= memtableSizeLimit
        then memtable == map[] && sstables == old(sstables) + [written]
        else memtable == written && sstables == old(sstables)
      ensures Lookup(memtable, sstables, key) == Visible(val)
      ensures forall j :: j != key ==> Lookup(memtable, sstables, j) == old(Lookup(memtable, sstables, j))
    {
      memtable := memtable[key := val];
      if |memtable| >= memtableSizeLimit {
        FlushMemtable();
      }
    }

    /** Reads key: the memtable first, then the sstables newest to oldest. */
    method Get(key: string) returns (r: Option<string>)
      ensures r == Lookup(memtable, sstables, key)
    {
      if key in memtable {
        var value := memtable[key];
        return if value == Tombstone then None else Some(value);
      }
      var i := |sstables|;
      assert sstables[..i] == sstables;
      while i > 0
        invariant 0 <= i <= |sstables|
        invariant LookupTables(sstables[..i], key) == LookupTables(sstables, key)
      {
        assert DropLast(sstables[..i]) == sstables[..i - 1];
        i := i - 1;
        var sstable := sstables[i];
        if key in sstable {
          var value := sstable[key];
          return if value == Tombstone then None else Some(value);
        }
      }
      return None;
    }

    /** Records the deletion of key by writing the sentinel; flushes like Put. */
    method Delete(key: string)
      requires Valid()
      modifies this
      ensures Valid()
      ensures var written := old(memtable)[key := Tombstone];
        if |written| >= memtableSizeLimit
        then memtable == map[] && sstables == old(sstables) + [written]
        else memtable == written && sstables == old(sstables)
      ensures Lookup(memtable, sstables, key) == None
      ensures forall j :: j != key ==> Lookup(memtable, sstables, j) == old(Lookup(memtable, sstables, j))
    {
      memtable := memtable[key := Tombstone];
      if |memtable| >= memtableSizeLimit {
        FlushMemtable();
      }
    }

    /**
     * Folds every sstable, oldest to newest, into one table, drops the
     * sentinels and replaces the chain by that table (or by nothing).
     */
    method Compact()
      requires Valid()
      modifies this
      ensures Valid()
      ensures memtable == old(memtable)
      ensures sstables == Compacted(old(sstables))
      ensures |sstables| <= 1
      ensures old(|sstables|) <= 1 ==> sstables == old(sstables)
      ensures forall k :: Lookup(memtable, sstables, k) == old(Lookup(memtable, sstables, k))
    {
      if |sstables| <= 1 {
        return;
      }
      ghost var chain := sstables;
      var merged: Table := map[];
      var i := 0;
      while i < |sstables|
        invariant 0 <= i <= |sstables|
        invariant merged == Merge(sstables[..i])
      {
        var sstable := sstables[i];
        ghost var before := merged;
        var pending := sstable.Keys;
        while pending != {}
          invariant pending <= sstable.Keys
          invariant forall k :: k in merged <==> k in before || (k in sstable && k !in pending)
          invariant forall k :: k in merged ==>
            merged[k] == if k in sstable && k !in pending then sstable[k] else before[k]
          decreases pending
        {
          var k :| k in pending;
          merged := merged[k := sstable[k]];
          pending := pending - {k};
        }
        assert merged == before + sstable;
        assert DropLast(sstables[..i + 1]) == sstables[..i];
        i := i + 1;
      }
      assert sstables[..i] == sstables;
      var compactedData := map k | k in merged && merged[k] != Tombstone :: merged[k];
      sstables := if compactedData != map[] then [compactedData] else [];
      assert sstables == Compacted(chain);
      forall k ensures Lookup(memtable, sstables, k) == Lookup(memtable, chain, k) {
        CompactPreservesLookup(memtable, chain, k);
      }
    }

    /** Moves a non-empty memtable, as a new sstable, to the end of the chain. */
    method FlushMemtable()
      requires NoEmptySSTable()
      modifies this
      ensures Valid()
      ensures old(memtable) == map[] ==> memtable == old(memtable) && sstables == old(sstables)
      ensures old(memtable) != map[] ==> memtable == map[] && sstables == old(sstables) + [old(memtable)]
      ensures forall k :: Lookup(memtable, sstables, k) == old(Lookup(memtable, sstables, k))
    {
      if memtable != map[] {
        forall k ensures Lookup(map[], sstables + [memtable], k) == Lookup(memtable, sstables, k) {
          FlushPreservesLookup(memtable, sstables, k);
        }
        // The source copies the memtable in key order; a map has no order to keep.
        var sortedData := memtable;
        sstables := sstables + [sortedData];
        memtable := map[];
      }
    }
  }

  /** The scenario of lsm_tree/test_lsm_tree.py: a put is read back. */
  method PutThenGetScenario()
  {
    var lsm := new LSMTree();
    lsm.Put("key", "val");
    var r := lsm.Get("key");
    assert r == Some("val");
  }
}
