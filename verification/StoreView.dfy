/**
 What the storage engine's data structures stand for.

 `Represents` says how the files, the two memtables and the running compactions of a table show one
 state of the `Engine` machine.  The lemmas say that each change the program makes to them is one
 step of that machine, for the table it is about and for no other.
 */
module StoreView {
  import opened Basics
  import opened Records
  import opened Codec
  import opened Volumes
  import opened Engine
  import opened Compaction
  import opened Space

  /** Local variables of a compaction between its rename and its commit. */
  datatype Progress = Progress(binsRead: nat, pending: set<nat>, dicts: Dictionaries)

  datatype World = World(
    tables: map<string, nat>,
    contents: map<Path, Text>,
    memtable: map<string, seq<Record>>,
    dumping: map<string, seq<Record>>,
    compactions: map<string, Progress>)

  function RecordsOf(memtable: map<string, seq<Record>>, table: string): seq<Record> {
    if table in memtable then memtable[table] else []
  }

  // ---- what a world shows ----

  /** The file is the text of these records, and will be read back as them. */
  ghost predicate Holds(contents: map<Path, Text>, path: Path, rs: seq<Record>) {
    path in contents && contents[path] == Render(rs) && AllLegal(rs)
  }

  ghost predicate ShowsBins(contents: map<Path, Text>, table: string, bins: seq<seq<Record>>) {
    forall i :: 0 <= i < |bins| ==> Holds(contents, Path(table, Bin, i), bins[i])
  }

  ghost predicate ShowsFiles(contents: map<Path, Text>, table: string, kind: Kind, files: map<nat, seq<Record>>) {
    && (forall n :: Path(table, kind, n) in contents ==> n in files)
    && (forall n :: n in files ==> Holds(contents, Path(table, kind, n), files[n]))
  }

  ghost predicate ShowsMerge(compactions: map<string, Progress>, table: string, partitions: nat, merge: Option<Merge>) {
    match merge
    case None => table !in compactions
    case Some(m) =>
      && table in compactions
      && compactions[table].binsRead == m.binsRead && compactions[table].pending == m.pending
      && |compactions[table].dicts| == partitions && Agree(compactions[table].dicts, m.read) && AllLegal(m.read)
  }

  ghost predicate ShowsMemory(memtable: map<string, seq<Record>>, table: string, rs: seq<Record>) {
    rs == RecordsOf(memtable, table) && AllLegal(rs) && (table in memtable ==> rs != [])
  }

  ghost predicate Shows(w: World, table: string, s: Table) {
    && table in w.tables && w.tables[table] == |s.bins|
    && ShowsBins(w.contents, table, s.bins)
    && ShowsFiles(w.contents, table, Tmp, s.tmp) && ShowsFiles(w.contents, table, Tmpc, s.tmpc)
    && ShowsMemory(w.memtable, table, s.mem) && ShowsMemory(w.dumping, table, s.inflight)
    && ShowsMerge(w.compactions, table, |s.bins|, s.merge)
    && s.readers == map[]
    && Engine.Inv(s)
  }

  /** Nothing in the world belongs to a table that does not exist. */
  ghost predicate NoStrays(w: World) {
    && (forall p :: p in w.contents ==> p.table in w.tables && (p.kind.Bin? ==> p.number < w.tables[p.table]))
    && w.memtable.Keys <= w.tables.Keys && w.dumping.Keys <= w.tables.Keys && w.compactions.Keys <= w.tables.Keys
  }

  ghost predicate ShowsAll(w: World, view: map<string, Table>) {
    NoStrays(w) && forall t {:trigger Shows(w, t, view[t])} :: t in view ==> Shows(w, t, view[t])
  }

  /** Every table of the world shows its state; the verifier looks inside only where `ShowsAll` is mentioned. */
  ghost predicate Represents(w: World, view: map<string, Table>) {
    && view.Keys == w.tables.Keys
    && forall v {:trigger ShowsAll(w, v)} :: v == view ==> ShowsAll(w, v)
  }

  lemma TableShown(w: World, view: map<string, Table>, table: string)
    requires Represents(w, view) && table in w.tables
    ensures table in view && Shows(w, table, view[table]) && NoStrays(w)
  {
    assert ShowsAll(w, view);
  }

  // ---- a change to one table leaves the others alone ----

  ghost predicate SameAt<K, V>(m: map<K, V>, m': map<K, V>, k: K) {
    (k in m <==> k in m') && (k in m ==> m[k] == m'[k])
  }

  ghost predicate SameFor(w: World, w': World, table: string) {
    && SameAt(w.tables, w'.tables, table)
    && (forall p: Path :: p.table == table ==> SameAt(w.contents, w'.contents, p))
    && SameAt(w.memtable, w'.memtable, table) && SameAt(w.dumping, w'.dumping, table)
    && SameAt(w.compactions, w'.compactions, table)
  }

  ghost predicate OnlyChanges(w: World, w': World, table: string) {
    forall t :: t != table ==> SameFor(w, w', t)
  }

  lemma ShowsStill(w: World, w': World, table: string, s: Table)
    requires Shows(w, table, s) && SameFor(w, w', table)
    ensures Shows(w', table, s)
  {
  }

  lemma StepRepresented(w: World, w': World, table: string, view: map<string, Table>, s': Table)
    requires Represents(w, view) && OnlyChanges(w, w', table)
    requires w'.tables == w.tables && NoStrays(w') && Shows(w', table, s')
    ensures Represents(w', view[table := s'])
  {
    assert ShowsAll(w, view);
    forall t | t in view && t != table {
      ShowsStill(w, w', t, view[t]);
    }
  }

  // ---- insert ----

  function Inserted(w: World, table: string, r: Record): World {
    w.(memtable := w.memtable[table := RecordsOf(w.memtable, table) + [r]])
  }

  lemma InsertShown(w: World, view: map<string, Table>, table: string, r: Record)
    requires Represents(w, view) && table in w.tables && Legal(r.value)
    ensures Represents(Inserted(w, table, r), view[table := Next(view[table], Insert(r))])
  {
    var s := view[table];
    TableShown(w, view, table);
    StepInv(s, Insert(r));
    StepRepresented(w, Inserted(w, table, r), table, view, Next(s, Insert(r)));
  }

  // ---- dump ----

  ghost predicate CanSwap(view: map<string, Table>) {
    forall t {:trigger Enabled(view[t], Swap)} :: t in view ==> Enabled(view[t], Swap)
  }

  ghost function SwappedView(view: map<string, Table>): map<string, Table>
    requires CanSwap(view)
  {
    assert forall t :: t in view ==> Enabled(view[t], Swap);
    map t | t in view :: Next(view[t], Swap)
  }

  function Swapped(w: World): World {
    w.(memtable := map[], dumping := w.memtable)
  }

  lemma SwapEnabled(w: World, view: map<string, Table>)
    requires ShowsAll(w, view) && w.dumping == map[]
    ensures CanSwap(view)
  {
    assert forall t :: t in view ==> Shows(w, t, view[t]);
  }

  lemma SwapShows(w: World, view: map<string, Table>, table: string)
    requires ShowsAll(w, view) && w.dumping == map[] && CanSwap(view) && table in view
    ensures Shows(Swapped(w), table, SwappedView(view)[table])
  {
    assert Shows(w, table, view[table]);
    StepInv(view[table], Swap);
  }

  /** The pointer swap is a step of every table at once. */
  lemma SwapShown(w: World, view: map<string, Table>)
    requires Represents(w, view) && w.dumping == map[]
    ensures CanSwap(view) && Represents(Swapped(w), SwappedView(view))
  {
    assert ShowsAll(w, view);
    SwapEnabled(w, view);
    forall t | t in view {
      SwapShows(w, view, t);
    }
    assert ShowsAll(Swapped(w), SwappedView(view));
  }

  lemma DumpingIsShown(w: World, view: map<string, Table>, table: string)
    requires Represents(w, view) && table in w.dumping
    ensures table in view && ShowsFiles(w.contents, table, Tmp, view[table].tmp)
  {
    assert ShowsAll(w, view);
    TableShown(w, view, table);
  }

  /** The first number that no dump file has is the engine's choice of name. */
  lemma FreeNameShown(contents: map<Path, Text>, table: string, files: map<nat, seq<Record>>, n: nat)
    requires ShowsFiles(contents, table, Tmp, files) && Path(table, Tmp, n) !in contents
    requires forall j :: 0 <= j < n ==> Path(table, Tmp, j) in contents
    ensures n == FreeName(files)
  {
  }

  lemma FewerNames(contents: map<Path, Text>, table: string, files: map<nat, seq<Record>>, n: nat)
    requires ShowsFiles(contents, table, Tmp, files) && Path(table, Tmp, n) in contents
    ensures NamesFrom(files, n + 1) < NamesFrom(files, n)
  {
    assert n in NamesFrom(files, n) && n !in NamesFrom(files, n + 1);
  }

  function DumpedContents(contents: map<Path, Text>, path: Path, text: Text, outcome: Outcome): map<Path, Text> {
    match outcome
    case NoBlock => contents
    case NoSpace => contents[path := []]
    case Stored => contents[path := text]
  }

  function Dumped(w: World, table: string, n: nat, outcome: Outcome): World {
    w.(contents := DumpedContents(w.contents, Path(table, Tmp, n), Render(RecordsOf(w.dumping, table)), outcome),
       dumping := w.dumping - {table})
  }

  lemma DumpShowsFiles(w: World, table: string, s: Table, outcome: Outcome)
    requires Shows(w, table, s) && table in w.dumping && Enabled(s, DumpTable(outcome))
    ensures ShowsFiles(DumpedContents(w.contents, Path(table, Tmp, FreeName(s.tmp)),
            Render(RecordsOf(w.dumping, table)), outcome),
                       table, Tmp, Next(s, DumpTable(outcome)).tmp)
  {
  }

  lemma DumpShows(w: World, table: string, s: Table, outcome: Outcome)
    requires Shows(w, table, s) && table in w.dumping
    ensures Enabled(s, DumpTable(outcome))
    ensures Shows(Dumped(w, table, FreeName(s.tmp), outcome), table, Next(s, DumpTable(outcome)))
  {
    var n := FreeName(s.tmp);
    var w', s' := Dumped(w, table, n, outcome), Next(s, DumpTable(outcome));
    StepInv(s, DumpTable(outcome));
    DumpShowsFiles(w, table, s, outcome);
    forall i | 0 <= i < |s'.bins| ensures Holds(w'.contents, Path(table, Bin, i), s'.bins[i]) {
      assert Holds(w.contents, Path(table, Bin, i), s.bins[i]);
    }
  }

  lemma DumpIsLocal(w: World, table: string, n: nat, outcome: Outcome)
    requires NoStrays(w) && table in w.tables
    ensures OnlyChanges(w, Dumped(w, table, n, outcome), table) && NoStrays(Dumped(w, table, n, outcome))
  {
  }

  lemma DumpShown(w: World, view: map<string, Table>, table: string, outcome: Outcome)
    requires Represents(w, view) && table in w.dumping && table in w.tables
    ensures table in view && Enabled(view[table], DumpTable(outcome))
    ensures Represents(Dumped(w, table, FreeName(view[table].tmp), outcome),
                       view[table := Next(view[table], DumpTable(outcome))])
  {
    var s := view[table];
    TableShown(w, view, table);
    DumpShows(w, table, s, outcome);
    DumpIsLocal(w, table, FreeName(s.tmp), outcome);
    StepRepresented(w, Dumped(w, table, FreeName(s.tmp), outcome), table, view, Next(s, DumpTable(outcome)));
  }

  /** A table after a whole dump: its memtable swapped and, if it had records, dumped. */
  ghost predicate WentThroughDump(s: Table, s': Table) {
    Enabled(s, Swap) &&
    if s.mem == [] then s' == Next(s, Swap)
    else exists o :: Enabled(Next(s, Swap), DumpTable(o)) && s' == Next(Next(s, Swap), DumpTable(o))
  }

  /** In the middle of a dump, the tables of `left` have only been swapped. */
  ghost predicate HalfDumped(before: map<string, Table>, view: map<string, Table>, left: set<string>) {
    && view.Keys == before.Keys && left <= view.Keys && CanSwap(before)
    && (forall t :: t in left ==> before[t].mem != [] && view[t] == SwappedView(before)[t])
    && (forall t {:trigger WentThroughDump(before[t], view[t])} :: t in view && t !in left ==>
       WentThroughDump(before[t], view[t]))
  }

  /** Every table dumped so far has all its records in a file. */
  ghost predicate AllStored(before: map<string, Table>, view: map<string, Table>, left: set<string>) {
    forall t :: t in before && t in view && t !in left && before[t].mem != [] ==> view[t] == FullyDumped(before[t])
  }

  function FullyDumped(s: Table): Table {
    s.(mem := [], inflight := [], tmp := s.tmp[FreeName(s.tmp) := s.mem])
  }

  lemma DumpStarts(w: World, before: map<string, Table>)
    requires Represents(w, before) && w.dumping == map[]
    ensures CanSwap(before) && HalfDumped(before, SwappedView(before), w.memtable.Keys)
    ensures AllStored(before, SwappedView(before), w.memtable.Keys)
  {
    assert ShowsAll(w, before);
    SwapEnabled(w, before);
    forall t | t in before ensures before[t].mem == [] <==> t !in w.memtable {
      TableShown(w, before, t);
    }
  }

  lemma DumpContinues(before: map<string, Table>, view: map<string, Table>, left: set<string>, t: string, o: Outcome)
    requires HalfDumped(before, view, left) && t in left && Enabled(view[t], DumpTable(o))
    ensures HalfDumped(before, view[t := Next(view[t], DumpTable(o))], left - {t})
  {
  }

  /**
   The blocks at hand decide whether all tables are stored: those left are enough for those to come, or never were.
   */
  ghost predicate Budget(before: map<string, Table>, view: map<string, Table>, dumping: map<string, seq<Record>>,
                         blockSize: nat, left: nat, demand: nat, free: nat)
    requires blockSize > 0
  {
    Balanced(AllStored(before, view, dumping.Keys), left, Demand(dumping, blockSize), demand, free)
  }

  ghost predicate Balanced(allStored: bool, left: nat, owed: nat, demand: nat, free: nat) {
    if allStored then left + demand == free + owed else demand > free
  }

  lemma BalanceContinues(allStored: bool, left: nat, owed: nat, demand: nat, free: nat, cost: nat, taken: nat, ok: bool)
    requires Balanced(allStored, left, owed, demand, free) && cost <= owed && taken <= left
    requires (ok <==> cost <= left) && (ok ==> taken == cost)
    ensures Balanced(allStored && ok, left - taken, owed - cost, demand, free)
  {
  }

  lemma OneMoreStored(before: map<string, Table>, view: map<string, Table>, left: set<string>, t: string, o: Outcome)
    requires HalfDumped(before, view, left) && t in left && Enabled(view[t], DumpTable(o))
    ensures AllStored(before, view[t := Next(view[t], DumpTable(o))], left - {t}) <==>
            AllStored(before, view, left) && o.Stored?
  {
    var view' := view[t := Next(view[t], DumpTable(o))];
    FullyDumpedIff(before[t], o);
    assert o.Stored? <==> view'[t] == FullyDumped(before[t]);
    if AllStored(before, view', left - {t}) {
      forall u | u in before && u in view && u !in left && before[u].mem != []
        ensures view[u] == FullyDumped(before[u])
      {
        assert view'[u] == FullyDumped(before[u]);
      }
    }
  }

  lemma BudgetContinues(before: map<string, Table>, view: map<string, Table>, dumping: map<string, seq<Record>>,
                        blockSize: nat, left: nat, demand: nat, free: nat, t: string, o: Outcome)
    requires blockSize > 0 && Budget(before, view, dumping, blockSize, left, demand, free)
    requires HalfDumped(before, view, dumping.Keys) && t in dumping && Enabled(view[t], DumpTable(o))
    requires Taken(dumping[t], o, blockSize) <= left && (o.Stored? <==> DumpCost(dumping[t], blockSize) <= left)
    ensures Budget(before, view[t := Next(view[t], DumpTable(o))], dumping - {t}, blockSize,
                   left - Taken(dumping[t], o, blockSize), demand, free)
  {
    DemandOf(dumping, blockSize, t);
    OneMoreStored(before, view, dumping.Keys, t, o);
    assert (dumping - {t}).Keys == dumping.Keys - {t};
    BalanceContinues(AllStored(before, view, dumping.Keys), left, Demand(dumping, blockSize), demand, free,
                     DumpCost(dumping[t], blockSize), Taken(dumping[t], o, blockSize), o.Stored?);
  }

  lemma FullyDumpedIff(s: Table, o: Outcome)
    requires Enabled(s, Swap) && Enabled(Next(s, Swap), DumpTable(o))
    ensures Next(Next(s, Swap), DumpTable(o)) == FullyDumped(s) <==> o.Stored?
  {
    var n := FreeName(s.tmp);
    assert n in FullyDumped(s).tmp && FullyDumped(s).tmp[n] == s.mem;
  }

  // ---- compaction: rename ----

  /** The dumps with a number in `moved` have become `.tmpc` files; nothing else happened. */
  ghost predicate Moved(c: map<Path, Text>, c': map<Path, Text>, table: string, moved: set<nat>) {
    && (forall p: Path :: p.table != table || p.kind.Bin? ==> SameAt(c, c', p))
    && (forall n :: n in moved ==> Path(table, Tmp, n) in c && Path(table, Tmp, n) !in c'
                                   && Path(table, Tmpc, n) in c' && c'[Path(table, Tmpc, n)] == c[Path(table, Tmp, n)])
    && (forall n :: n !in moved ==> SameAt(c, c', Path(table, Tmp, n)) && SameAt(c, c', Path(table, Tmpc, n)))
  }

  lemma MoveOne(c: map<Path, Text>, c': map<Path, Text>, table: string, moved: set<nat>, n: nat)
    requires Moved(c, c', table, moved) && n !in moved && Path(table, Tmp, n) in c'
    ensures var from := Path(table, Tmp, n);
            Moved(c, (c' - {from})[Path(table, Tmpc, n) := c'[from]], table, moved + {n})
  {
  }
  function BlocksOfKind(v: Volume, table: string, kind: Kind): set<nat> {
    set b | b in v.owner && v.owner[b].table == table && v.owner[b].kind == kind
  }

  /** The renaming pass seen from the files: names change, blocks and partitions do not. */
  ghost predicate MovedFiles(v: Volume, v': Volume, table: string, moved: set<nat>) {
    && Moved(v.contents, v'.contents, table, moved)
    && (forall p: Path :: p.kind.Bin? ==> SameAt(v.files, v'.files, p))
    && BlocksOfKind(v', table, Tmp) + BlocksOfKind(v', table, Tmpc) ==
       BlocksOfKind(v, table, Tmp) + BlocksOfKind(v, table, Tmpc)
  }

  lemma MovedNone(v: Volume, table: string)
    ensures MovedFiles(v, v, table, {})
  {
  }

  lemma MoveFile(v: Volume, v': Volume, table: string, moved: set<nat>, n: nat)
    requires MovedFiles(v, v', table, moved) && n !in moved && SameKeys(v')
    requires Path(table, Tmp, n) in v'.files && Path(table, Tmpc, n) !in v'.files
    ensures MovedFiles(v, Renamed(v', Path(table, Tmp, n), Path(table, Tmpc, n)), table, moved + {n})
  {
    MoveOne(v.contents, v'.contents, table, moved, n);
  }

  /** When all dumps are renamed and none was before, the renamed files have exactly the blocks of the dumps. */
  lemma MovedAll(v: Volume, v': Volume, table: string, all: set<nat>, partitions: nat)
    requires MovedFiles(v, v', table, all) && (forall n :: Path(table, Tmp, n) in v.contents ==> n in all)
    requires SameKeys(v) && Exact(v) && SameKeys(v') && Exact(v') && forall n :: Path(table, Tmpc, n) !in v.contents
    ensures BlocksOfKind(v', table, Tmpc) == BlocksOfKind(v, table, Tmp)
    ensures BinBlocks(v'.files, table, partitions) == BinBlocks(v.files, table, partitions)
  {
    assert BlocksOfKind(v, table, Tmpc) == {} by {
      assert forall p: Path :: p.table == table && p.kind == Tmpc ==> p == Path(table, Tmpc, p.number);
    }
    assert BlocksOfKind(v', table, Tmp) == {} by {
      assert forall p: Path :: p.table == table && p.kind == Tmp ==> p == Path(table, Tmp, p.number);
    }
    forall i | 0 <= i < partitions
      ensures BlocksOf(v'.files, Path(table, Bin, i)) == BlocksOf(v.files, Path(table, Bin, i))
    {
      assert SameAt(v.files, v'.files, Path(table, Bin, i));
    }
  }

  function Numbers(contents: map<Path, Text>, table: string, kind: Kind): set<nat> {
    set p | p in contents && p.table == table && p.kind == kind :: p.number
  }

  ghost predicate Renaming(w: World, w': World, table: string, pending: set<nat>) {
    && table in w.tables
    && Moved(w.contents, w'.contents, table, pending)
    && w' == w.(contents := w'.contents,
                compactions := w.compactions[table := Progress(0, pending, NoDictionaries(w.tables[table]))])
  }

  lemma RenameShows(w: World, w': World, table: string, s: Table)
    requires Shows(w, table, s) && s.merge.None? && s.tmp != map[] && Renaming(w, w', table, s.tmp.Keys)
    ensures Enabled(s, Rename) && Shows(w', table, Next(s, Rename))
  {
    var s' := Next(s, Rename);
    StepInv(s, Rename);
    RenameClobbersNothing(s);
    EmptyAgrees(|s.bins|);
    assert ShowsFiles(w'.contents, table, Tmpc, s.tmp) by {
      forall n | n in s.tmp ensures Holds(w'.contents, Path(table, Tmpc, n), s.tmp[n]) {
        assert Holds(w.contents, Path(table, Tmp, n), s.tmp[n]);
      }
      forall n | Path(table, Tmpc, n) in w'.contents ensures n in s.tmp {
        assert n !in s.tmp.Keys ==> SameAt(w.contents, w'.contents, Path(table, Tmpc, n));
      }
    }
    assert ShowsFiles(w'.contents, table, Tmp, map[]) by {
      forall n ensures Path(table, Tmp, n) !in w'.contents {
        assert n !in s.tmp.Keys ==> SameAt(w.contents, w'.contents, Path(table, Tmp, n));
      }
    }
    assert ShowsBins(w'.contents, table, s.bins) by {
      forall i | 0 <= i < |s.bins| ensures Holds(w'.contents, Path(table, Bin, i), s.bins[i]) {
        assert Holds(w.contents, Path(table, Bin, i), s.bins[i]);
      }
    }
  }

  lemma RenameStrays(w: World, w': World, table: string, pending: set<nat>)
    requires NoStrays(w) && Renaming(w, w', table, pending)
    ensures NoStrays(w') && OnlyChanges(w, w', table)
  {
  }

  lemma IdleTable(w: World, table: string, s: Table)
    requires Shows(w, table, s) && table !in w.compactions
    ensures s.merge.None? && Numbers(w.contents, table, Tmp) == s.tmp.Keys
  {
  }

  lemma IdleTableIsShown(w: World, view: map<string, Table>, table: string)
    requires Represents(w, view) && table in w.tables && table !in w.compactions
    ensures forall n :: Path(table, Tmpc, n) !in w.contents
  {
    TableShown(w, view, table);
    IdleTable(w, table, view[table]);
  }

  lemma IdleTableInv(w: World, view: map<string, Table>, table: string)
    requires Represents(w, view) && table !in w.compactions
    ensures table in w.tables ==>
            table in view && Inv(view[table]) && view[table].merge.None? && view[table].tmpc == map[]
  {
    if table in w.tables {
      TableShown(w, view, table);
    }
  }

  lemma RenameShown(w: World, w': World, view: map<string, Table>, table: string)
    requires Represents(w, view) && table in w.tables && table !in w.compactions
    requires Numbers(w.contents, table, Tmp) != {} && Renaming(w, w', table, Numbers(w.contents, table, Tmp))
    ensures table in view && Enabled(view[table], Rename) && Represents(w', view[table := Next(view[table], Rename)])
  {
    TableShown(w, view, table);
    IdleTable(w, table, view[table]);
    RenameShows(w, w', table, view[table]);
    RenameStrays(w, w', table, Numbers(w.contents, table, Tmp));
    StepRepresented(w, w', table, view, Next(view[table], Rename));
  }

  // ---- compaction: merge ----

  function Merging(w: World, table: string, p: Progress): World {
    w.(compactions := w.compactions[table := p])
  }

  lemma MergeIsShown(w: World, view: map<string, Table>, table: string)
    requires Represents(w, view) && table in w.tables && table in w.compactions
    ensures table in view && view[table].merge.Some? && |view[table].bins| == w.tables[table]
    ensures var m := view[table].merge.value;
            m.binsRead == w.compactions[table].binsRead && Agree(w.compactions[table].dicts, m.read)
            && |w.compactions[table].dicts| == w.tables[table]
  {
    TableShown(w, view, table);
  }

  lemma AllLegalConcat(a: seq<Record>, b: seq<Record>)
    requires AllLegal(a) && AllLegal(b)
    ensures AllLegal(a + b)
  {
  }

  /** What a merge step needs to know to read its next file. */
  lemma BinIsThere(w: World, view: map<string, Table>, table: string, i: nat)
    requires Represents(w, view) && table in w.tables && i < w.tables[table]
    ensures |view[table].bins| == w.tables[table]
    ensures Holds(w.contents, Path(table, Bin, i), view[table].bins[i])
    ensures Parse(w.contents[Path(table, Bin, i)]) == Some(view[table].bins[i])
  {
    TableShown(w, view, table);
    assert Holds(w.contents, Path(table, Bin, i), view[table].bins[i]);
    LegalRoundTrip(view[table].bins[i]);
  }

  lemma MergeBinShown(w: World, view: map<string, Table>, table: string, dicts: Dictionaries)
    requires Represents(w, view) && table in w.compactions && table in w.tables
    requires w.compactions[table].binsRead < |view[table].bins|
    requires view[table].merge.Some?
    requires Agree(dicts, view[table].merge.value.read + view[table].bins[w.compactions[table].binsRead])
    requires |dicts| == |view[table].bins|
    ensures Enabled(view[table], MergeBin)
    ensures var p := w.compactions[table];
            Represents(Merging(w, table, p.(binsRead := p.binsRead + 1, dicts := dicts)),
                       view[table := Next(view[table], MergeBin)])
  {
    var s, p := view[table], w.compactions[table];
    TableShown(w, view, table);
    var w' := Merging(w, table, p.(binsRead := p.binsRead + 1, dicts := dicts));
    StepInv(s, MergeBin);
    BinIsThere(w, view, table, p.binsRead);
    AllLegalConcat(s.merge.value.read, s.bins[p.binsRead]);
    StepRepresented(w, w', table, view, Next(s, MergeBin));
  }

  lemma TmpcIsThere(w: World, view: map<string, Table>, table: string, n: nat)
    requires Represents(w, view) && table in w.tables && table in w.compactions && n in w.compactions[table].pending
    ensures table in view && view[table].merge.Some? && n in view[table].tmpc
    ensures n in view[table].merge.value.pending
    ensures Holds(w.contents, Path(table, Tmpc, n), view[table].tmpc[n])
    ensures Parse(w.contents[Path(table, Tmpc, n)]) == Some(view[table].tmpc[n])
  {
    TableShown(w, view, table);
    assert Holds(w.contents, Path(table, Tmpc, n), view[table].tmpc[n]);
    LegalRoundTrip(view[table].tmpc[n]);
  }

  lemma MergeTmpcShown(w: World, view: map<string, Table>, table: string, n: nat, dicts: Dictionaries)
    requires Represents(w, view) && table in w.compactions && table in w.tables
    requires n in w.compactions[table].pending && w.compactions[table].binsRead == |view[table].bins|
    requires view[table].merge.Some? && n in view[table].tmpc
    requires Agree(dicts, view[table].merge.value.read + view[table].tmpc[n])
    requires |dicts| == |view[table].bins|
    ensures Enabled(view[table], MergeTmpc(n))
    ensures var p := w.compactions[table];
            Represents(Merging(w, table, p.(pending := p.pending - {n}, dicts := dicts)),
                       view[table := Next(view[table], MergeTmpc(n))])
  {
    var s, p := view[table], w.compactions[table];
    TableShown(w, view, table);
    var w' := Merging(w, table, p.(pending := p.pending - {n}, dicts := dicts));
    TmpcIsThere(w, view, table, n);
    StepInv(s, MergeTmpc(n));
    AllLegalConcat(s.merge.value.read, s.tmpc[n]);
    StepRepresented(w, w', table, view, Next(s, MergeTmpc(n)));
  }

  // ---- compaction: commit ----

  function PathsOfKind(contents: map<Path, Text>, table: string, kind: Kind): set<Path> {
    set p | p in contents && p.table == table && p.kind == kind
  }

  /** The partitions in `written` have their new text, the other files are as they were. */
  ghost predicate Rewriting(c: map<Path, Text>, c': map<Path, Text>, table: string, output: seq<seq<Record>>,
                            written: set<nat>)
  {
    forall p: Path {:trigger p in c'} ::
      if p.table == table && p.kind.Bin? && p.number in written
      then p in c' && p.number < |output| && c'[p] == Render(output[p.number])
      else SameAt(c, c', p)
  }

  lemma RewriteNone(c: map<Path, Text>, table: string)
    ensures Rewriting(c, c, table, [], {})
  {
    assert forall p: Path :: SameAt(c, c, p);
  }

  lemma RewriteOne(c: map<Path, Text>, c': map<Path, Text>, table: string, output: seq<seq<Record>>, written: set<nat>,
                   rs: seq<Record>, ok: bool)
    requires Rewriting(c, c', table, output, written)
    ensures var i, path := |output|, Path(table, Bin, |output|);
            Rewriting(c, if ok then c'[path := Render(rs)] else c', table, output + [rs],
                      if ok then written + {i} else written)
  {
    var path := Path(table, Bin, |output|);
    var c'' := if ok then c'[path := Render(rs)] else c';
    forall p: Path ensures
      if p.table == table && p.kind.Bin? && p.number in (if ok then written + {|output|} else written)
      then p in c'' && p.number < |output| + 1 && c''[p] == Render((output + [rs])[p.number])
      else SameAt(c, c'', p)
    {
      assert p in c' || p !in c';
      if !(ok && p == path) {
        assert p in c'' <==> p in c';
      }
    }
  }

  /** The first n partitions have had their turn, and the others are as they were. */
  ghost predicate SpentSoFar(files: map<Path, File>, files': map<Path, File>, table: string, partitions: nat, n: nat,
                             needs: seq<nat>, others: seq<nat>, free: nat, left: nat, written: set<nat>)
  {
    && n <= partitions == |needs| == |others| && left == LeftAmid(needs[..n], free, others[..n])
    && written == GrantedAmid(needs[..n], free, others[..n])
    && (forall i :: 0 <= i < partitions ==> Path(table, Bin, i) in files && Path(table, Bin, i) in files')
    && (forall i :: n <= i < partitions ==> files'[Path(table, Bin, i)] == files[Path(table, Bin, i)])
  }

  lemma SpendOne(files: map<Path, File>, files': map<Path, File>, files'': map<Path, File>, table: string,
                 partitions: nat, n: nat, needs: seq<nat>, others: seq<nat>, free: nat, left: nat, written: set<nat>,
                 ok: bool)
    requires n < partitions && SpentSoFar(files, files', table, partitions, n, needs, others, free, left, written)
    requires Path(table, Bin, n) in files'' && files'' == files'[Path(table, Bin, n) := files''[Path(table, Bin, n)]]
    requires ok == (needs[n] <= LeftBy(left, others[n]))
    ensures SpentSoFar(files, files'', table, partitions, n + 1, needs, others, free,
                       LeftBy(left, others[n]) - (if ok then needs[n] else 0),
                       if ok then written + {n} else written)
  {
    OneMoreAmid(needs, n, free, others);
  }

  ghost predicate AllListed(output: seq<seq<Record>>, read: seq<Record>, partitions: nat)
    requires partitions > 0
  {
    forall i :: 0 <= i < |output| ==> Lists(output[i], read, i, partitions)
  }

  lemma OneMoreListed(output: seq<seq<Record>>, rs: seq<Record>, read: seq<Record>, partitions: nat)
    requires partitions > 0 && AllListed(output, read, partitions) && Lists(rs, read, |output|, partitions)
    ensures AllListed(output + [rs], read, partitions)
  {
  }

  ghost predicate Committing(w: World, w': World, table: string, output: seq<seq<Record>>, written: set<nat>) {
    && Rewriting(w.contents - PathsOfKind(w.contents, table, Tmpc), w'.contents, table, output, written)
    && w' == w.(contents := w'.contents, compactions := w.compactions - {table})
  }

  lemma ListedAreLegal(output: seq<Record>, read: seq<Record>, partition: nat, partitions: nat)
    requires partitions > 0 && Lists(output, read, partition, partitions) && AllLegal(read)
    ensures AllLegal(output)
  {
    forall r | r in output ensures Legal(r.value) {
      ScanIsNewest(read, r.key);
    }
  }

  lemma CommitShows(w: World, w': World, table: string, s: Table, output: seq<seq<Record>>, written: set<nat>)
    requires Shows(w, table, s) && Enabled(s, Commit(output, written)) && Committing(w, w', table, output, written)
    ensures Shows(w', table, Next(s, Commit(output, written)))
  {
    var s' := Next(s, Commit(output, written));
    StepInv(s, Commit(output, written));
    assert ShowsBins(w'.contents, table, s'.bins) by {
      forall i | 0 <= i < |s'.bins| ensures Holds(w'.contents, Path(table, Bin, i), s'.bins[i]) {
        assert Holds(w.contents, Path(table, Bin, i), s.bins[i]);
        ListedAreLegal(output[i], s.merge.value.read, i, |s.bins|);
        assert Path(table, Bin, i) in w'.contents;
      }
    }
    assert ShowsFiles(w'.contents, table, Tmp, s'.tmp) by {
      forall n | n in s.tmp ensures Holds(w'.contents, Path(table, Tmp, n), s.tmp[n]) {
        assert Holds(w.contents, Path(table, Tmp, n), s.tmp[n]);
        assert Path(table, Tmp, n) in w'.contents;
      }
    }
  }

  lemma CommitKeepsRest(w: World, w': World, table: string, output: seq<seq<Record>>, written: set<nat>)
    requires Committing(w, w', table, output, written) && NoStrays(w) && table in w.tables
             && |output| == w.tables[table]
    ensures OnlyChanges(w, w', table) && NoStrays(w')
  {
    var kept := w.contents - PathsOfKind(w.contents, table, Tmpc);
    forall p: Path | p.table != table ensures SameAt(w.contents, w'.contents, p) {
      assert SameAt(kept, w'.contents, p) by { assert p in w'.contents || p !in w'.contents; }
    }
    forall p | p in w'.contents ensures p.table in w'.tables && (p.kind.Bin? ==> p.number < w'.tables[p.table]) {
      if !(p.table == table && p.kind.Bin? && p.number in written) {
        assert SameAt(kept, w'.contents, p);
      }
    }
  }

  lemma CommitShown(w: World, w': World, view: map<string, Table>, table: string, output: seq<seq<Record>>,
                    written: set<nat>)
    requires Represents(w, view) && table in view && table in w.tables && Committing(w, w', table, output, written)
    requires Enabled(view[table], Commit(output, written))
    ensures Represents(w', view[table := Next(view[table], Commit(output, written))])
  {
    TableShown(w, view, table);
    CommitShows(w, w', table, view[table], output, written);
    CommitKeepsRest(w, w', table, output, written);
    StepRepresented(w, w', table, view, Next(view[table], Commit(output, written)));
  }

  /** What a commit finds: everything merged, and a file for every partition. */
  lemma CommitIsReady(w: World, view: map<string, Table>, table: string)
    requires Represents(w, view) && table in w.tables && table in w.compactions
    requires w.compactions[table].binsRead == w.tables[table] && w.compactions[table].pending == {}
    ensures table in view && view[table].merge.Some? && view[table].merge.value.pending == {}
    ensures view[table].merge.value.binsRead == |view[table].bins| == w.tables[table] && view[table].readers == map[]
    ensures forall i :: 0 <= i < w.tables[table] ==> Path(table, Bin, i) in w.contents
  {
    TableShown(w, view, table);
    forall i | 0 <= i < w.tables[table] ensures Path(table, Bin, i) in w.contents {
      assert Holds(w.contents, Path(table, Bin, i), view[table].bins[i]);
    }
  }

  // ---- select ----

  predicate IsTemporary(p: Path, table: string) {
    p.table == table && !p.kind.Bin?
  }

  function Temporaries(contents: map<Path, Text>, table: string): set<Path> {
    set p | p in contents && IsTemporary(p, table)
  }

  /** The records of a temporary file. */
  ghost function RecordsIn(s: Table, p: Path): seq<Record> {
    if p.kind.Tmp? && p.number in s.tmp then s.tmp[p.number]
    else if p.kind.Tmpc? && p.number in s.tmpc then s.tmpc[p.number]
    else []
  }

  ghost function Gathered(s: Table, paths: set<Path>): set<Record> {
    set p, r | p in paths && r in RecordsIn(s, p) :: r
  }

  lemma GatherOne(s: Table, paths: set<Path>, p: Path)
    ensures Gathered(s, paths + {p}) == Gathered(s, paths) + SetOf(RecordsIn(s, p))
  {
  }

  lemma TemporaryIsThere(w: World, view: map<string, Table>, table: string, p: Path)
    requires Represents(w, view) && table in w.tables && p in w.contents && IsTemporary(p, table)
    ensures Parse(w.contents[p]) == Some(RecordsIn(view[table], p))
  {
    TableShown(w, view, table);
    var rs := RecordsIn(view[table], p);
    assert Path(table, p.kind, p.number) == p;
    assert Holds(w.contents, p, rs);
    LegalRoundTrip(rs);
  }

  lemma GatheredAll(w: World, view: map<string, Table>, table: string)
    requires Represents(w, view) && table in w.tables
    ensures Gathered(view[table], Temporaries(w.contents, table)) ==
            InFiles(view[table].tmp) + InFiles(view[table].tmpc)
  {
    var s := view[table];
    TableShown(w, view, table);
    forall r | r in InFiles(s.tmp) + InFiles(s.tmpc) ensures r in Gathered(s, Temporaries(w.contents, table)) {
      if r in InFiles(s.tmp) {
        var n :| n in s.tmp && r in s.tmp[n];
        assert Holds(w.contents, Path(table, Tmp, n), s.tmp[n]);
        assert r in RecordsIn(s, Path(table, Tmp, n));
      } else {
        var n :| n in s.tmpc && r in s.tmpc[n];
        assert Holds(w.contents, Path(table, Tmpc, n), s.tmpc[n]);
        assert r in RecordsIn(s, Path(table, Tmpc, n));
      }
    }
  }

  lemma PartitionsShown(w: World, view: map<string, Table>, table: string)
    requires Represents(w, view) && table in w.tables
    ensures |view[table].bins| == w.tables[table] > 0
  {
    TableShown(w, view, table);
  }

  /** The three results of a select, combined, are what the two steps of the machine answer. */
  lemma SelectIsAnswer(w: World, view: map<string, Table>, table: string, key: uint16,
                       partition: Option<Record>, temporaries: Option<Record>)
    requires Represents(w, view) && table in w.tables && w.tables[table] > 0
    requires |view[table].bins| == w.tables[table]
    requires partition == Scan(view[table].bins[key % w.tables[table]], key)
    requires IsNewest(Gathered(view[table], Temporaries(w.contents, table)), key, temporaries)
    ensures var s, found := view[table], Pick(partition, temporaries);
            && Enabled(s, SelectFiles(0, key, found))
            && Answer(Next(s, SelectFiles(0, key, found)), 0) == Pick(found, Scan(RecordsOf(w.memtable, table), key))
  {
    var s := view[table];
    TableShown(w, view, table);
    GatheredAll(w, view, table);
    var bin := s.bins[key % |s.bins|];
    ScanIsNewest(bin, key);
    PickIsNewest(SetOf(bin), partition, InFiles(s.tmp) + InFiles(s.tmpc), temporaries, key);
    assert Scope(s, key) == SetOf(bin) + (InFiles(s.tmp) + InFiles(s.tmpc));
  }

  /** Which is the newest record of the key that is not in flight. */
  lemma SelectIsNewest(w: World, view: map<string, Table>, table: string, key: uint16, found: Option<Record>)
    requires Represents(w, view) && table in w.tables && Enabled(view[table], SelectFiles(0, key, found))
    ensures IsNewest(Visible(view[table]), key, Answer(Next(view[table], SelectFiles(0, key, found)), 0))
  {
    TableShown(w, view, table);
    StepInv(view[table], SelectFiles(0, key, found));
    AnswerIsNewestVisible(Next(view[table], SelectFiles(0, key, found)), 0);
  }

  // ---- create and drop ----

  /** Contents after the first n partitions of a table have been created, all empty. */
  function WithBins(contents: map<Path, Text>, table: string, n: nat): map<Path, Text> {
    contents + map i | 0 <= i < n :: Path(table, Bin, i) := []
  }

  lemma OneMoreBin(contents: map<Path, Text>, table: string, n: nat)
    ensures WithBins(contents, table, n)[Path(table, Bin, n) := []] == WithBins(contents, table, n + 1)
  {
  }

  lemma NewTable(w: World, view: map<string, Table>, table: string)
    requires Represents(w, view) && table !in w.tables
    ensures table !in view && table !in w.memtable && table !in w.compactions
    ensures forall p :: p in w.contents ==> p.table != table
  {
    assert ShowsAll(w, view);
  }

  function Created(w: World, table: string, partitions: nat): World {
    w.(tables := w.tables[table := partitions],
       contents := WithBins(w.contents, table, partitions))
  }

  lemma CreatedShows(w: World, table: string, partitions: nat)
    requires NoStrays(w) && table !in w.tables && partitions > 0
    ensures Shows(Created(w, table, partitions), table, Engine.Created(partitions))
  {
    CreatedInv(partitions);
  }

  lemma CreatedKeeps(w: World, table: string, partitions: nat)
    requires NoStrays(w) && table !in w.tables
    ensures NoStrays(Created(w, table, partitions)) && OnlyChanges(w, Created(w, table, partitions), table)
  {
  }

  lemma CreateShown(w: World, view: map<string, Table>, table: string, partitions: nat)
    requires Represents(w, view) && table !in w.tables && partitions > 0
    ensures Represents(Created(w, table, partitions), view[table := Engine.Created(partitions)])
  {
    var w', s' := Created(w, table, partitions), Engine.Created(partitions);
    assert ShowsAll(w, view);
    CreatedShows(w, table, partitions);
    CreatedKeeps(w, table, partitions);
    forall t | t in view {
      ShowsStill(w, w', t, view[t]);
    }
  }

  function Dropped(w: World, table: string): World {
    World(w.tables - {table}, w.contents - (set p | p in w.contents && p.table == table),
          w.memtable - {table}, w.dumping, w.compactions - {table})
  }

  lemma DroppedKeeps(w: World, table: string)
    requires NoStrays(w) && table !in w.dumping
    ensures NoStrays(Dropped(w, table)) && OnlyChanges(w, Dropped(w, table), table)
  {
  }

  lemma DropShown(w: World, view: map<string, Table>, table: string)
    requires Represents(w, view) && table in w.tables && table !in w.dumping
    ensures Represents(Dropped(w, table), view - {table})
  {
    assert ShowsAll(w, view);
    DroppedKeeps(w, table);
    forall t | t in view && t != table {
      ShowsStill(w, Dropped(w, table), t, view[t]);
    }
  }
}
