/** The node store: reference-counted entries in memory (MemoryDB) over an optional disk
    (OverlayDB). Without a disk the overlay is the plain memory store. */
module NodeStore {
  import opened Bytes
  import opened TrieCode

  /** The string and the reference count of a digest. */
  type Main = map<Digest, (bytes, nat)>

  /** The disk keeps nodes under their digest and preimages under the digest and one more byte;
      the two key spaces are disjoint. */
  datatype Disk = Disk(nodes: map<Digest, bytes>, aux: map<Digest, bytes>)

  // ---------------------------------------------------------------- the contents

  function CountOf(main: Main, d: Digest): nat
  {
    if d in main then main[d].1 else 0
  }

  function MemoryRead(main: Main, enforceRefs: bool, d: Digest): bytes
  {
    if d in main && (!enforceRefs || main[d].1 > 0) then main[d].0 else []
  }

  predicate OnDisk(disk: Option<Disk>, d: Digest)
  {
    disk.Some? && d in disk.value.nodes
  }

  function DiskRead(disk: Option<Disk>, d: Digest): bytes
  {
    if OnDisk(disk, d) then disk.value.nodes[d] else []
  }

  /** What a lookup returns; empty when nothing is found. */
  function Read(main: Main, enforceRefs: bool, disk: Option<Disk>, d: Digest): bytes
  {
    var r := MemoryRead(main, enforceRefs, d);
    if r == [] then DiskRead(disk, d) else r
  }

  function Inserted(main: Main, d: Digest, v: bytes): Main
  {
    main[d := (v, CountOf(main, d) + 1)]
  }

  function Killed(main: Main, d: Digest): Main
  {
    if CountOf(main, d) > 0 then main[d := (main[d].0, main[d].1 - 1)] else main
  }

  function Referenced(main: Main): set<Digest>
  {
    set d | d in main && main[d].1 > 0
  }

  /** The nodes that a commit puts in its batch. */
  function Batch(main: Main): map<Digest, bytes>
  {
    map d | d in main && main[d].1 > 0 :: main[d].0
  }

  function AuxBatch(aux: map<Digest, (bytes, bool)>): map<Digest, bytes>
  {
    map d | d in aux && aux[d].1 :: aux[d].0
  }

  class OverlayDB {
    var main: Main
    var aux: map<Digest, (bytes, bool)>
    var enforceRefs: bool
    var disk: Option<Disk>

    constructor (disk: Option<Disk>)
      ensures main == map[] && aux == map[] && !enforceRefs && this.disk == disk
    {
      main, aux, enforceRefs := map[], map[], false;
      this.disk := disk;
    }

    /** MemoryDB::lookup, then the disk. */
    method Lookup(d: Digest) returns (r: bytes)
      ensures r == Read(main, enforceRefs, disk, d)
    {
      r := [];
      if d in main {
        if !enforceRefs || main[d].1 > 0 {
          r := main[d].0;
        }
      }
      if r == [] && disk.Some? && d in disk.value.nodes {
        r := disk.value.nodes[d];
      }
    }

    method Exists(d: Digest) returns (r: bool)
      ensures r <==> (d in main && (!enforceRefs || main[d].1 > 0)) || DiskRead(disk, d) != []
    {
      if d in main && (!enforceRefs || main[d].1 > 0) {
        return true;
      }
      var ret := [];
      if disk.Some? && d in disk.value.nodes {
        ret := disk.value.nodes[d];
      }
      return ret != [];
    }

    method Insert(d: Digest, v: bytes)
      modifies this`main
      ensures main == Inserted(old(main), d, v)
    {
      if d in main {
        main := main[d := (v, main[d].1 + 1)];
      } else {
        main := main[d := (v, 1)];
      }
    }

    /** MemoryDB::kill: false when there was no reference to drop. */
    method MemoryKill(d: Digest) returns (dropped: bool)
      modifies this`main
      ensures main == Killed(old(main), d)
      ensures dropped <==> CountOf(old(main), d) > 0
    {
      if d in main {
        if main[d].1 > 0 {
          main := main[d := (main[d].0, main[d].1 - 1)];
          return true;
        }
      }
      return false;
    }

    /** OverlayDB::kill: only a warning is logged when nothing was dropped. */
    method Kill(d: Digest)
      modifies this`main
      ensures main == Killed(old(main), d)
    {
      var dropped := MemoryKill(d);
    }

    method Purge()
      modifies this`main
      ensures main == map d | d in Referenced(old(main)) :: old(main)[d]
      ensures forall d :: d in main <==> d in old(main) && old(main)[d].1 > 0
    {
      var todo := main.Keys;
      while todo != {}
        invariant todo <= main.Keys <= old(main).Keys
        invariant forall d :: d in main ==> main[d] == old(main)[d]
        invariant forall d :: d in old(main) && d !in todo ==> (d in main <==> old(main)[d].1 > 0)
      {
        var d :| d in todo;
        if main[d].1 == 0 {
          main := main - {d};
        }
        todo := todo - {d};
      }
    }

    method Keys() returns (r: set<Digest>)
      ensures r == Referenced(main) && forall d :: d in r <==> d in main && main[d].1 > 0
    {
      r := {};
      var todo := main.Keys;
      while todo != {}
        invariant todo <= main.Keys
        invariant r == set d | d in main && d !in todo && main[d].1 > 0
      {
        var d :| d in todo;
        if main[d].1 > 0 {
          r := r + {d};
        }
        todo := todo - {d};
      }
    }

    method MakeBatch() returns (batch: map<Digest, bytes>)
      ensures batch == Batch(main)
    {
      batch := map[];
      var todo := main.Keys;
      while todo != {}
        invariant todo <= main.Keys
        invariant batch == map d | d in main && d !in todo && main[d].1 > 0 :: main[d].0
      {
        var d :| d in todo;
        if main[d].1 > 0 {
          batch := batch[d := main[d].0];
        }
        todo := todo - {d};
      }
    }

    method MakeAuxBatch() returns (batch: map<Digest, bytes>)
      ensures batch == AuxBatch(aux)
    {
      batch := map[];
      var todo := aux.Keys;
      while todo != {}
        invariant todo <= aux.Keys
        invariant batch == map d | d in aux && d !in todo && aux[d].1 :: aux[d].0
      {
        var d :| d in todo;
        if aux[d].1 {
          batch := batch[d := aux[d].0];
        }
        todo := todo - {d};
      }
    }

    /** Writes what is referenced to the disk in one batch and forgets the rest. */
    method Commit()
      modifies this
      ensures enforceRefs == old(enforceRefs)
      ensures old(disk).None? ==> main == old(main) && aux == old(aux) && disk == old(disk)
      ensures old(disk).Some? ==> main == map[] && aux == map[]
      ensures old(disk).Some? ==> disk == Some(Disk(old(disk).value.nodes + Batch(old(main)),
                                                    old(disk).value.aux + AuxBatch(old(aux))))
    {
      if disk.Some? {
        var batch := MakeBatch();
        var auxBatch := MakeAuxBatch();
        disk := Some(Disk(disk.value.nodes + batch, disk.value.aux + auxBatch));
        aux, main := map[], map[];
      }
    }

    /** Forgets the nodes in memory; preimages stay. */
    method Rollback()
      modifies this`main
      ensures main == map[]
    {
      main := map[];
    }

    method InsertAux(d: Digest, v: bytes)
      modifies this`aux
      ensures aux == old(aux)[d := (v, true)]
    {
      aux := aux[d := (v, true)];
    }

    method RemoveAux(d: Digest)
      modifies this`aux
      ensures aux == old(aux)[d := (if d in old(aux) then old(aux)[d].0 else [], false)]
    {
      aux := aux[d := (if d in aux then aux[d].0 else [], false)];
    }

    method LookupAux(d: Digest) returns (r: bytes)
      ensures r == if d in aux && (!enforceRefs || aux[d].1) && aux[d].0 != [] then aux[d].0
                   else if disk.Some? && d in disk.value.aux then disk.value.aux[d] else []
    {
      r := if d in aux && (!enforceRefs || aux[d].1) then aux[d].0 else [];
      if r == [] && disk.Some? && d in disk.value.aux {
        r := disk.value.aux[d];
      }
    }
  }

  /** A preimage that is kept outlasts a commit as well as a rollback; one that is removed again does
      not reach the disk. */
  method Preimage(db: OverlayDB, d: Digest, v: bytes, remove: bool, commit: bool) returns (r: bytes)
    requires v != [] && !db.enforceRefs
    modifies db
    ensures r == if !(remove && commit && old(db.disk).Some?) then v
                 else if d in old(db.disk).value.aux then old(db.disk).value.aux[d] else []
  {
    db.InsertAux(d, v);
    if remove {
      db.RemoveAux(d);
    }
    if commit {
      db.Commit();
    } else {
      db.Rollback();
    }
    r := db.LookupAux(d);
  }

  // ---------------------------------------------------------------- reading what was written

  /** An insertion counts once more, and is read back, whatever is on disk; nothing else changes. */
  lemma InsertedRead(main: Main, enforceRefs: bool, disk: Option<Disk>, d: Digest, v: bytes, e: Digest)
    requires v != []
    ensures CountOf(Inserted(main, d, v), e) == CountOf(main, e) + if e == d then 1 else 0
    ensures Read(Inserted(main, d, v), enforceRefs, disk, e) ==
            if e == d then v else Read(main, enforceRefs, disk, e)
  {
  }

  /** A kill takes back one insertion: the count is lowered, but not below zero. What was inserted is
      read on, as long as references are not enforced; else until the last of them is gone. */
  lemma KilledRead(main: Main, disk: Option<Disk>, d: Digest, e: Digest)
    ensures var n := CountOf(main, e); CountOf(Killed(main, d), e) == if e == d && n > 0 then n - 1 else n
    ensures Read(Killed(main, d), false, disk, e) == Read(main, false, disk, e)
    ensures Read(Killed(main, d), true, disk, e) ==
            if e == d && CountOf(main, d) == 1 then DiskRead(disk, d) else Read(main, true, disk, e)
  {
  }

  /** After a commit every digest reads as it did when references were enforced: what had a count, and
      of the rest what was on disk. */
  lemma CommittedRead(main: Main, disk: Disk, aux: map<Digest, bytes>, d: Digest)
    requires d in main && main[d].1 > 0 ==> main[d].0 != []
    ensures Read(map[], false, Some(Disk(disk.nodes + Batch(main), aux)), d) == Read(main, true, Some(disk), d)
  {
  }

  // ---------------------------------------------------------------- content-addressed stores

  /** Everything in the store sits under its own hash and is one of the strings. */
  ghost predicate Sound(main: Main, disk: Option<Disk>, sha3: Hasher, strings: iset<bytes>)
  {
    && (forall d: Digest :: d in main ==> main[d].0 in strings && sha3(main[d].0) == d)
    && (forall d: Digest :: OnDisk(disk, d) ==> disk.value.nodes[d] in strings && sha3(disk.value.nodes[d]) == d)
  }

  function Domain(main: Main, disk: Option<Disk>): set<Digest>
  {
    main.Keys + (if disk.Some? then disk.value.nodes.Keys else {})
  }

  /** All that can be read, when references are not enforced. */
  ghost function View(main: Main, disk: Option<Disk>): map<Digest, bytes>
  {
    map d | d in Domain(main, disk) :: Read(main, false, disk, d)
  }

  /** The counts are exactly the multiplicities of the live digests, except that a digest
      on disk may have any count. */
  ghost predicate Counted(main: Main, disk: Option<Disk>, live: multiset<Digest>)
  {
    forall d: Digest :: !OnDisk(disk, d) ==> CountOf(main, d) == live[d]
  }

  lemma SoundView(main: Main, disk: Option<Disk>, sha3: Hasher, strings: iset<bytes>, d: Digest)
    requires Usable(sha3, strings) && Sound(main, disk, sha3, strings)
    requires d in View(main, disk)
    ensures View(main, disk)[d] in strings && sha3(View(main, disk)[d]) == d
  {
  }

  lemma InsertSound(main: Main, disk: Option<Disk>, sha3: Hasher, strings: iset<bytes>, v: bytes)
    requires Usable(sha3, strings) && Sound(main, disk, sha3, strings) && v in strings
    ensures var main' := Inserted(main, sha3(v), v);
            Sound(main', disk, sha3, strings) && Grows(View(main, disk), View(main', disk)) &&
            sha3(v) in View(main', disk) && View(main', disk)[sha3(v)] == v
  {
  }

  lemma InsertCounted(main: Main, disk: Option<Disk>, live: multiset<Digest>, d: Digest, v: bytes)
    requires Counted(main, disk, live)
    ensures Counted(Inserted(main, d, v), disk, live + multiset{d})
  {
  }

  lemma KillSound(main: Main, disk: Option<Disk>, sha3: Hasher, strings: iset<bytes>, d: Digest)
    requires Sound(main, disk, sha3, strings)
    ensures Sound(Killed(main, d), disk, sha3, strings)
    ensures View(Killed(main, d), disk) == View(main, disk)
  {
  }

  lemma KillCounted(main: Main, disk: Option<Disk>, live: multiset<Digest>, d: Digest)
    requires Counted(main, disk, live + multiset{d})
    ensures Counted(Killed(main, d), disk, live)
  {
  }

  /** Dropping a reference that nobody holds changes no count that matters. */
  lemma KillUncounted(main: Main, disk: Option<Disk>, live: multiset<Digest>, d: Digest)
    requires Counted(main, disk, live) && d !in live
    ensures Counted(Killed(main, d), disk, live)
  {
  }

  /** Live digests can be read: from the disk, or from memory because they have a count. */
  lemma CountedReadable(main: Main, disk: Option<Disk>, sha3: Hasher, strings: iset<bytes>, live: multiset<Digest>)
    requires Usable(sha3, strings) && Sound(main, disk, sha3, strings) && Counted(main, disk, live)
    ensures Readable(View(main, disk), sha3, strings, live)
  {
    forall d: Digest | d in live
      ensures d in View(main, disk) && View(main, disk)[d] in strings && sha3(View(main, disk)[d]) == d
    {
      assert OnDisk(disk, d) || CountOf(main, d) > 0;
      SoundView(main, disk, sha3, strings, d);
    }
  }

  // ---------------------------------------------------------------- commit

  lemma CommitSound(main: Main, disk: Disk, sha3: Hasher, strings: iset<bytes>)
    requires Sound(main, Some(disk), sha3, strings)
    ensures forall aux :: Sound(map[], Some(Disk(disk.nodes + Batch(main), aux)), sha3, strings)
  {
    forall aux, d: Digest | d in disk.nodes + Batch(main)
      ensures var nodes := Disk(disk.nodes + Batch(main), aux).nodes; nodes[d] in strings && sha3(nodes[d]) == d
    {
      if d !in Batch(main) {
        assert OnDisk(Some(disk), d);
      }
    }
  }

  /** What was live and not on disk had a count, so the batch has it. */
  lemma CommitCounted(main: Main, disk: Disk, live: multiset<Digest>)
    requires Counted(main, Some(disk), live)
    ensures forall aux :: Counted(map[], Some(Disk(disk.nodes + Batch(main), aux)), live)
    ensures forall aux, d: Digest :: d in live ==> OnDisk(Some(Disk(disk.nodes + Batch(main), aux)), d)
  {
    forall d: Digest | d in live
      ensures d in disk.nodes + Batch(main)
    {
      assert !OnDisk(Some(disk), d) ==> CountOf(main, d) == live[d];
    }
  }
}
