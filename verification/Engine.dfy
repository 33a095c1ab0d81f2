/**
 The storage engine of one table as a state machine.  Its steps are the sections that a lock makes atomic: an insert,
 the memtable swap, the dump of the swapped records, the phases of a compaction, and the two halves of a select.
 */
module Engine {
  import opened Basics
  import opened Records

  /** A compaction between its rename and its commit: what it has read, in the order it read it. */
  datatype Merge = Merge(binsRead: nat, pending: set<nat>, read: seq<Record>)

  /** A select that holds the shared lock and has scanned the files. */
  datatype Reader = Reader(key: uint16, found: Option<Record>)

  datatype Table = Table(
    bins: seq<seq<Record>>,
    tmp: map<nat, seq<Record>>,
    tmpc: map<nat, seq<Record>>,
    mem: seq<Record>,
    inflight: seq<Record>,
    merge: Option<Merge>,
    readers: map<nat, Reader>)

  function Created(partitions: nat): Table {
    Table(seq(partitions, _ => []), map[], map[], [], [], None, map[])
  }

  /** What became of a dump: no block for the file, no blocks for its contents, or done. */
  datatype Outcome = NoBlock | NoSpace | Stored

  datatype Action =
    | Insert(r: Record)
    | Swap
    | DumpTable(outcome: Outcome)
    | Rename
    | MergeBin
    | MergeTmpc(n: nat)
    | Commit(output: seq<seq<Record>>, written: set<nat>)
    | SelectFiles(id: nat, key: uint16, found: Option<Record>)
    | SelectMemtable(doneId: nat)

  // ---- contents ----

  ghost function InFiles(files: map<nat, seq<Record>>): set<Record> {
    set n, r | n in files && r in files[n] :: r
  }

  ghost function InBins(bins: seq<seq<Record>>): set<Record> {
    set i, r | 0 <= i < |bins| && r in bins[i] :: r
  }

  ghost function OnDisk(s: Table): set<Record> {
    InBins(s.bins) + InFiles(s.tmp) + InFiles(s.tmpc)
  }

  /** What a select can see. */
  ghost function Visible(s: Table): set<Record> {
    OnDisk(s) + SetOf(s.mem)
  }

  /** Every record the table holds, those of a running dump included. */
  ghost function Logical(s: Table): set<Record> {
    Visible(s) + SetOf(s.inflight)
  }

  /** No record of k in flight is newer than all that a select sees. */
  ghost predicate NoneHidden(s: Table, k: uint16) {
    CoversKey(Visible(s), SetOf(s.inflight), k)
  }

  /** The files a select of k reads: one partition and every temporary. */
  ghost function Scope(s: Table, k: uint16): set<Record>
    requires s.bins != []
  {
    SetOf(s.bins[k % |s.bins|]) + InFiles(s.tmp) + InFiles(s.tmpc)
  }

  // ---- steps ----

  /** First number without a file: the search for the name of a dump. */
  function FreeName(files: map<nat, seq<Record>>, from: nat := 0): (n: nat)
    ensures n !in files && from <= n && forall j :: from <= j < n ==> j in files
    decreases |NamesFrom(files, from)|
  {
    if from in files then
      assert NamesFrom(files, from + 1) == NamesFrom(files, from) - {from};
      FreeName(files, from + 1)
    else from
  }

  function NamesFrom(files: map<nat, seq<Record>>, from: nat): set<nat> {
    set n | n in files && from <= n
  }

  /** The records of one partition's new file: the newest of every key of the partition, once. */
  ghost predicate Lists(output: seq<Record>, read: seq<Record>, partition: nat, partitions: nat)
    requires partitions > 0
  {
    && (forall r :: r in output ==> r.key % partitions == partition && Scan(read, r.key) == Some(r))
    && (forall k: uint16 :: k % partitions == partition && Scan(read, k).Some? ==> Scan(read, k).value in output)
    && (forall i, j :: 0 <= i < j < |output| ==> output[i].key != output[j].key)
  }

  ghost predicate Enabled(s: Table, a: Action) {
    match a
    case Insert(_) => true
    case Swap => s.inflight == []
    case DumpTable(_) => s.inflight != [] && s.readers == map[]
    case Rename => s.merge.None? && s.tmp != map[] && s.readers == map[]
    case MergeBin => s.merge.Some? && s.merge.value.binsRead < |s.bins|
    case MergeTmpc(n) =>
      s.merge.Some? && s.merge.value.binsRead == |s.bins| && n in s.merge.value.pending && n in s.tmpc
    case Commit(output, _) =>
      && s.merge.Some? && s.merge.value.binsRead == |s.bins| && s.merge.value.pending == {} && s.readers == map[]
      && |output| == |s.bins|
      && (forall i :: 0 <= i < |output| ==> Lists(output[i], s.merge.value.read, i, |s.bins|))
    case SelectFiles(id, k, found) => id !in s.readers && s.bins != [] && IsNewest(Scope(s, k), k, found)
    case SelectMemtable(id) => id in s.readers
  }

  ghost function Next(s: Table, a: Action): Table
    requires Enabled(s, a)
  {
    match a
    case Insert(r) => s.(mem := s.mem + [r])
    case Swap => s.(mem := [], inflight := s.mem)
    case DumpTable(outcome) =>
      (match outcome
       case NoBlock => s.(inflight := [])
       case NoSpace => s.(inflight := [], tmp := s.tmp[FreeName(s.tmp) := []])
       case Stored => s.(inflight := [], tmp := s.tmp[FreeName(s.tmp) := s.inflight]))
    case Rename =>
      var tmpc := s.tmpc + s.tmp;
      s.(tmp := map[], tmpc := tmpc, merge := Some(Merge(0, tmpc.Keys, [])))
    case MergeBin =>
      var m := s.merge.value;
      s.(merge := Some(m.(binsRead := m.binsRead + 1, read := m.read + s.bins[m.binsRead])))
    case MergeTmpc(n) =>
      var m := s.merge.value;
      s.(merge := Some(m.(pending := m.pending - {n}, read := m.read + s.tmpc[n])))
    case Commit(output, written) =>
      s.(bins := Rewritten(s.bins, output, written), tmpc := map[], merge := None)
    case SelectFiles(id, k, found) => s.(readers := s.readers[id := Reader(k, found)])
    case SelectMemtable(id) => s.(readers := s.readers - {id})
  }

  function Rewritten(bins: seq<seq<Record>>, output: seq<seq<Record>>, written: set<nat>): (b: seq<seq<Record>>)
    requires |output| == |bins|
    ensures |b| == |bins|
  {
    seq(|bins|, i requires 0 <= i < |bins| => if i in written then output[i] else bins[i])
  }

  /** What a select answers when it reaches the memtable. */
  function Answer(s: Table, id: nat): Option<Record>
    requires id in s.readers
  {
    Pick(s.readers[id].found, Scan(s.mem, s.readers[id].key))
  }

  // ---- the invariant ----

  ghost predicate Partitioned(bins: seq<seq<Record>>) {
    forall i, r {:trigger r in bins[i]} :: 0 <= i < |bins| && r in bins[i] ==> r.key % |bins| == i
  }

  /** A compaction has read the bins in order and then the renamed files, and nothing else. */
  ghost predicate MergeInv(s: Table, m: Merge) {
    && m.binsRead <= |s.bins| && m.pending <= s.tmpc.Keys
    && (m.binsRead < |s.bins| ==> m.pending == s.tmpc.Keys)
    && SetOf(m.read) == InBins(s.bins[..m.binsRead]) + InFiles(s.tmpc - m.pending)
  }

  ghost predicate FoundNewest(s: Table, id: nat)
    requires id in s.readers
  {
    IsNewest(OnDisk(s), s.readers[id].key, s.readers[id].found)
  }

  ghost predicate ReadersInv(s: Table) {
    forall id {:trigger FoundNewest(s, id)} :: id in s.readers ==> FoundNewest(s, id)
  }

  ghost predicate Inv(s: Table) {
    && s.bins != [] && Partitioned(s.bins)
    && (s.merge.None? ==> s.tmpc == map[])
    && (s.merge.Some? ==> MergeInv(s, s.merge.value))
    && ReadersInv(s)
  }

  lemma CreatedInv(partitions: nat)
    requires partitions > 0
    ensures Inv(Created(partitions)) && Logical(Created(partitions)) == {}
  {
  }

  // ---- sets of records of files ----

  lemma InFilesAdd(files: map<nat, seq<Record>>, n: nat, rs: seq<Record>)
    requires n !in files
    ensures InFiles(files[n := rs]) == InFiles(files) + SetOf(rs)
  {
    var after := files[n := rs];
    forall r | r in InFiles(files) + SetOf(rs) ensures r in InFiles(after) {
      if r in SetOf(rs) {
        assert n in after && r in after[n];
      } else {
        var m :| m in files && r in files[m];
        assert m in after && after[m] == files[m];
      }
    }
    forall r | r in InFiles(after) ensures r in InFiles(files) + SetOf(rs) {
      var m :| m in after && r in after[m];
    }
  }

  lemma PendingStep(tmpc: map<nat, seq<Record>>, pending: set<nat>, n: nat)
    requires n in pending && n in tmpc
    ensures InFiles(tmpc - (pending - {n})) == InFiles(tmpc - pending) + SetOf(tmpc[n])
  {
    assert tmpc - (pending - {n}) == (tmpc - pending)[n := tmpc[n]];
    InFilesAdd(tmpc - pending, n, tmpc[n]);
  }

  lemma SetOfConcat(a: seq<Record>, b: seq<Record>)
    ensures SetOf(a + b) == SetOf(a) + SetOf(b)
  {
  }

  // ---- every step keeps the invariant ----

  /** A select in progress has what the files hold, and steps beside it leave the files' records alone. */
  lemma ReadersStay(s: Table, s': Table)
    requires ReadersInv(s) && OnDisk(s') == OnDisk(s)
    requires forall id :: id in s'.readers ==> id in s.readers && s'.readers[id] == s.readers[id]
    ensures ReadersInv(s')
  {
    forall id | id in s'.readers ensures FoundNewest(s', id) {
      assert FoundNewest(s, id);
    }
  }

  lemma RenameClobbersNothing(s: Table)
    requires Inv(s) && Enabled(s, Rename)
    ensures Next(s, Rename).tmpc == s.tmp && Next(s, Rename).tmp == map[] && OnDisk(Next(s, Rename)) == OnDisk(s)
  {
    assert s.tmpc + s.tmp == s.tmp;
  }

  lemma RenameInv(s: Table)
    requires Inv(s) && Enabled(s, Rename)
    ensures Inv(Next(s, Rename))
  {
    RenameClobbersNothing(s);
    assert s.tmp - s.tmp.Keys == map[];
    assert s.bins[..0] == [];
  }

  lemma InBinsStep(bins: seq<seq<Record>>, n: nat)
    requires n < |bins|
    ensures InBins(bins[..n + 1]) == InBins(bins[..n]) + SetOf(bins[n])
  {
    forall r ensures r in InBins(bins[..n + 1]) <==> r in InBins(bins[..n]) + SetOf(bins[n]) {
      if r in InBins(bins[..n + 1]) {
        var i :| 0 <= i < n + 1 && r in bins[..n + 1][i];
        if i < n {
          assert bins[..n][i] == bins[i];
        }
      }
      if r in InBins(bins[..n]) {
        var i :| 0 <= i < n && r in bins[..n][i];
        assert bins[..n + 1][i] == bins[i];
      }
      assert bins[..n + 1][n] == bins[n];
    }
  }

  lemma MergeBinInv(s: Table)
    requires Inv(s) && Enabled(s, MergeBin)
    ensures Inv(Next(s, MergeBin))
  {
    var m := s.merge.value;
    SetOfConcat(m.read, s.bins[m.binsRead]);
    InBinsStep(s.bins, m.binsRead);
    assert s.tmpc - s.tmpc.Keys == map[];
    ReadersStay(s, Next(s, MergeBin));
  }

  lemma MergeTmpcInv(s: Table, n: nat)
    requires Inv(s) && Enabled(s, MergeTmpc(n))
    ensures Inv(Next(s, MergeTmpc(n)))
  {
    var m := s.merge.value;
    PendingStep(s.tmpc, m.pending, n);
    SetOfConcat(m.read, s.tmpc[n]);
    ReadersStay(s, Next(s, MergeTmpc(n)));
  }

  lemma CommitInv(s: Table, output: seq<seq<Record>>, written: set<nat>)
    requires Inv(s) && Enabled(s, Commit(output, written))
    ensures Inv(Next(s, Commit(output, written)))
  {
    var bins' := Rewritten(s.bins, output, written);
    forall i, r: Record | 0 <= i < |bins'| && r in bins'[i] ensures r.key % |bins'| == i {
      assert Lists(output[i], s.merge.value.read, i, |s.bins|);
    }
  }

  /** A key lives in one partition, so reading that partition and the temporaries is reading all the files. */
  lemma ScopeSuffices(s: Table, k: uint16, o: Option<Record>)
    requires s.bins != [] && Partitioned(s.bins)
    ensures IsNewest(Scope(s, k), k, o) <==> IsNewest(OnDisk(s), k, o)
  {
    var p := k % |s.bins|;
    assert forall r :: r in OnDisk(s) && r.key == k ==> r in Scope(s, k) by {
      forall r | r in InBins(s.bins) && r.key == k ensures r in SetOf(s.bins[p]) {
        var i :| 0 <= i < |s.bins| && r in s.bins[i];
      }
    }
    assert Scope(s, k) <= OnDisk(s) by {
      forall r | r in SetOf(s.bins[p]) ensures r in InBins(s.bins) {
      }
    }
  }

  lemma SelectInv(s: Table, id: nat, k: uint16, found: Option<Record>)
    requires Inv(s) && Enabled(s, SelectFiles(id, k, found))
    ensures Inv(Next(s, SelectFiles(id, k, found)))
  {
    var s' := Next(s, SelectFiles(id, k, found));
    ScopeSuffices(s, k, found);
    forall i | i in s'.readers ensures FoundNewest(s', i) {
      assert i != id ==> FoundNewest(s, i);
    }
  }

  lemma StepInv(s: Table, a: Action)
    requires Inv(s) && Enabled(s, a)
    ensures Inv(Next(s, a))
  {
    match a
    case Insert(_) => ReadersStay(s, Next(s, a));
    case Swap => ReadersStay(s, Next(s, a));
    case DumpTable(_) =>
    case Rename => RenameInv(s);
    case MergeBin => MergeBinInv(s);
    case MergeTmpc(n) => MergeTmpcInv(s, n);
    case Commit(output, written) => CommitInv(s, output, written);
    case SelectFiles(id, k, found) => SelectInv(s, id, k, found);
    case SelectMemtable(_) => ReadersStay(s, Next(s, a));
  }

  // ---- what a commit does to the records ----

  /** The compaction has read everything: its history is the partitions and the renamed files. */
  lemma CommitHasReadAll(s: Table, output: seq<seq<Record>>, written: set<nat>)
    requires Inv(s) && Enabled(s, Commit(output, written))
    ensures SetOf(s.merge.value.read) == InBins(s.bins) + InFiles(s.tmpc)
  {
    assert s.bins[..|s.bins|] == s.bins;
    assert s.tmpc - {} == s.tmpc;
  }

  /** A commit invents nothing: what it writes comes from the partitions and the renamed files only. */
  lemma CommitSources(s: Table, output: seq<seq<Record>>, written: set<nat>)
    requires Inv(s) && Enabled(s, Commit(output, written))
    ensures InBins(Next(s, Commit(output, written)).bins) <= InBins(s.bins) + InFiles(s.tmpc)
    ensures Next(s, Commit(output, written)).tmp == s.tmp
  {
    var bins', read := Rewritten(s.bins, output, written), s.merge.value.read;
    CommitHasReadAll(s, output, written);
    forall r | r in InBins(bins') ensures r in InBins(s.bins) + InFiles(s.tmpc) {
      var i :| 0 <= i < |bins'| && r in bins'[i];
      if i in written {
        assert Lists(output[i], read, i, |s.bins|);
        ScanIsNewest(read, r.key);
      } else {
        assert r in s.bins[i];
      }
    }
  }

  /** A partition that was rewritten holds the newest of everything merged into it. */
  lemma CommitKeepsPartition(s: Table, output: seq<seq<Record>>, written: set<nat>, r: Record)
    requires Inv(s) && Enabled(s, Commit(output, written)) && r.key % |s.bins| in written
    requires r in InBins(s.bins) + InFiles(s.tmpc)
    ensures HasCover(InBins(Next(s, Commit(output, written)).bins), r)
  {
    var read, p := s.merge.value.read, r.key % |s.bins|;
    CommitHasReadAll(s, output, written);
    ScanIsNewest(read, r.key);
    assert Lists(output[p], read, p, |s.bins|);
    var q := Scan(read, r.key).value;
    assert q in Rewritten(s.bins, output, written)[p];
    assert Covers(q, r);
  }

  /** The new file of a partition answers every key of it as the whole history of the merge did. */
  lemma {:induction false} ListingScan(output: seq<Record>, read: seq<Record>, partition: nat, partitions: nat,
                                       k: uint16)
    requires partitions > 0 && Lists(output, read, partition, partitions) && k % partitions == partition
    ensures Scan(output, k) == Scan(read, k)
  {
    ScanIsNewest(output, k);
    ScanIsNewest(read, k);
    assert Scan(output, k).Some? ==> Scan(output, k).value in output;
    assert Scan(read, k).Some? ==> Scan(read, k).value in SetOf(output);
  }

  // ---- a compaction that nothing interrupts ----

  /** The file of a partition after a compaction of the records S: the newest of each of its keys, once. */
  ghost predicate IsCompact(output: seq<Record>, S: set<Record>, partition: nat, partitions: nat)
    requires partitions > 0
  {
    && (forall r :: r in output ==> r.key % partitions == partition && IsNewest(S, r.key, Some(r)))
    && (forall r :: r in S && r.key % partitions == partition ==> exists q :: q in output && q.key == r.key)
    && (forall i, j :: 0 <= i < j < |output| ==> output[i].key != output[j].key)
  }

  /** A state reached from s0 by a rename and some merges. */
  ghost predicate MergingFrom(s0: Table, s: Table) {
    && Inv(s) && s.merge.Some?
    && s == s0.(tmp := map[], tmpc := s0.tmp, merge := s.merge)
  }

  /** A state reached from s0 by a whole compaction that wrote the partitions in `written`. */
  ghost predicate CompactedFrom(s0: Table, s: Table, output: seq<seq<Record>>, written: set<nat>) {
    && |output| == |s0.bins| && s == s0.(bins := Rewritten(s0.bins, output, written), tmp := map[])
    && forall i :: 0 <= i < |output| ==> IsCompact(output[i], InBins(s0.bins) + InFiles(s0.tmp), i, |s0.bins|)
  }

  lemma ListsIsCompact(output: seq<Record>, read: seq<Record>, partition: nat, partitions: nat)
    requires partitions > 0 && Lists(output, read, partition, partitions)
    ensures IsCompact(output, SetOf(read), partition, partitions)
  {
    forall r | r in output ensures IsNewest(SetOf(read), r.key, Some(r)) {
      ScanIsNewest(read, r.key);
    }
    forall r | r in SetOf(read) && r.key % partitions == partition ensures exists q :: q in output && q.key == r.key {
      ScanIsNewest(read, r.key);
      assert Scan(read, r.key).value in output;
    }
  }

  lemma RenameStarts(s: Table)
    requires Inv(s) && Enabled(s, Rename)
    ensures MergingFrom(s, Next(s, Rename))
  {
    StepInv(s, Rename);
    RenameClobbersNothing(s);
  }

  lemma MergeContinues(s0: Table, s: Table, a: Action)
    requires MergingFrom(s0, s) && Enabled(s, a) && (a.MergeBin? || a.MergeTmpc?)
    ensures MergingFrom(s0, Next(s, a))
  {
    StepInv(s, a);
  }

  lemma CommitEnds(s0: Table, s: Table, output: seq<seq<Record>>, written: set<nat>)
    requires MergingFrom(s0, s) && Enabled(s, Commit(output, written)) && s0.merge.None? && s0.tmpc == map[]
    ensures CompactedFrom(s0, Next(s, Commit(output, written)), output, written)
  {
    CommitHasReadAll(s, output, written);
    forall i | 0 <= i < |output| ensures IsCompact(output[i], InBins(s0.bins) + InFiles(s0.tmp), i, |s0.bins|) {
      ListsIsCompact(output[i], s.merge.value.read, i, |s0.bins|);
    }
  }

  // ---- select ----

  /** A select answers with the newest record it can see. */
  lemma AnswerIsNewestVisible(s: Table, id: nat)
    requires ReadersInv(s) && Enabled(s, SelectMemtable(id))
    ensures IsNewest(Visible(s), s.readers[id].key, Answer(s, id))
  {
    assert FoundNewest(s, id);
    ScanIsNewest(s.mem, s.readers[id].key);
    PickIsNewest(OnDisk(s), s.readers[id].found, SetOf(s.mem), Scan(s.mem, s.readers[id].key), s.readers[id].key);
  }
}
