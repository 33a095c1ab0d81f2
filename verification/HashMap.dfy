/**
 The chained hash map of the program: an array of chains that doubles when as many chains are in
 use as there are.  A null value cannot be told from an absent key by a lookup, nor by a removal.
 */
module HashMaps {
  import opened Basics

  datatype Element<V> = Element(key: int, hash: uint32, value: Option<V>)

  type Chain<V> = seq<Element<V>>
  type Contents<V> = map<int, Option<V>>

  // ---- one chain ----

  /** Position of a key in a chain, or the length of the chain. */
  function Position<V>(chain: Chain<V>, key: int): (i: nat)
    ensures i <= |chain| && (i < |chain| ==> chain[i].key == key)
    ensures forall j :: 0 <= j < i ==> chain[j].key != key
  {
    if chain == [] || chain[0].key == key then 0 else 1 + Position(chain[1..], key)
  }

  ghost predicate UniqueKeys<V>(chain: Chain<V>) {
    forall i, j :: 0 <= i < j < |chain| ==> chain[i].key != chain[j].key
  }

  /** The value of a key in a chain. */
  function ValueIn<V>(chain: Chain<V>, key: int): Option<Option<V>> {
    var i := Position(chain, key);
    if i < |chain| then Some(chain[i].value) else None
  }

  lemma ValueInAppended<V>(chain: Chain<V>, e: Element<V>, key: int)
    requires Position(chain, e.key) == |chain|
    ensures ValueIn(chain + [e], key) == if key == e.key then Some(e.value) else ValueIn(chain, key)
  {
    var i, j := Position(chain, key), Position(chain + [e], key);
    if key == e.key {
      assert (chain + [e])[|chain|] == e;
      assert j == |chain|;
    } else if i < |chain| {
      assert (chain + [e])[i].key == key;
      assert j == i;
    }
  }

  lemma ValueInReplaced<V>(chain: Chain<V>, i: nat, value: Option<V>, key: int)
    requires UniqueKeys(chain) && i < |chain|
    ensures UniqueKeys(chain[i := chain[i].(value := value)])
    ensures ValueIn(chain[i := chain[i].(value := value)], key) ==
            if key == chain[i].key then Some(value) else ValueIn(chain, key)
  {
    var after := chain[i := chain[i].(value := value)];
    assert forall j :: 0 <= j < |chain| ==> after[j].key == chain[j].key;
    var p, q := Position(chain, key), Position(after, key);
    assert p == q;
  }

  lemma ValueInRemoved<V>(chain: Chain<V>, i: nat, key: int)
    requires UniqueKeys(chain) && i < |chain|
    ensures UniqueKeys(chain[..i] + chain[i + 1..])
    ensures ValueIn(chain[..i] + chain[i + 1..], key) == if key == chain[i].key then None else ValueIn(chain, key)
  {
    var after := chain[..i] + chain[i + 1..];
    assert forall j :: 0 <= j < |after| ==> after[j] == if j < i then chain[j] else chain[j + 1];
    var p, q := Position(chain, key), Position(after, key);
    if p < i {
      assert after[p].key == key;
    } else if i < p < |chain| {
      assert after[p - 1].key == key;
    }
    if q < |after| {
      assert after[q] == if q < i then chain[q] else chain[q + 1];
    }
  }

  // ---- the table ----

  type Table<V> = seq<Chain<V>>

  ghost predicate Placed<V>(chain: Chain<V>, hash: int -> uint32, b: nat, size: nat)
    requires size > 0
  {
    forall i :: 0 <= i < |chain| ==> chain[i].hash == hash(chain[i].key) && chain[i].hash % size == b
  }

  ghost predicate GoodChain<V>(chain: Chain<V>, hash: int -> uint32, b: nat, size: nat)
    requires size > 0
  {
    Placed(chain, hash, b, size) && UniqueKeys(chain)
  }

  /** What a lookup in the table finds. */
  function Lookup<V>(table: Table<V>, hash: int -> uint32, key: int): Option<Option<V>>
    requires table != []
  {
    ValueIn(table[hash(key) % |table|], key)
  }

  /** Every element is in the bucket of its hash, keys are unique, and lookups are those of the map. */
  ghost predicate Shows<V>(table: Table<V>, hash: int -> uint32, m: Contents<V>) {
    && table != []
    && (forall b :: 0 <= b < |table| ==> GoodChain(table[b], hash, b, |table|))
    && (forall key {:trigger Lookup(table, hash, key)} ::
          Lookup(table, hash, key) == if key in m then Some(m[key]) else None)
  }

  /** Number of buckets in use. */
  function NonEmpty<V>(table: Table<V>): nat {
    if table == [] then 0 else NonEmpty(table[..|table| - 1]) + if table[|table| - 1] == [] then 0 else 1
  }

  function EmptyTable<V>(size: nat): Table<V> {
    seq(size, _ => [])
  }

  lemma {:induction false} EmptyTableUse<V>(table: Table<V>)
    requires forall b :: 0 <= b < |table| ==> table[b] == []
    ensures NonEmpty(table) == 0
  {
    if table != [] {
      EmptyTableUse(table[..|table| - 1]);
    }
  }

  lemma {:induction false} NonEmptyUpdate<V>(table: Table<V>, b: nat, chain: Chain<V>)
    requires b < |table|
    ensures NonEmpty(table[b := chain]) + (if table[b] == [] then 0 else 1) ==
            NonEmpty(table) + if chain == [] then 0 else 1
  {
    var n := |table| - 1;
    if b < n {
      NonEmptyUpdate(table[..n], b, chain);
      assert table[b := chain][..n] == table[..n][b := chain];
    } else {
      assert table[b := chain][..n] == table[..n];
    }
  }

  /** Replacing one chain changes what is found under one key only. */
  lemma ChainReplaced<V>(table: Table<V>, hash: int -> uint32, m: Contents<V>, key: int, chain: Chain<V>,
                         m': Contents<V>)
    requires Shows(table, hash, m) && GoodChain(chain, hash, hash(key) % |table|, |table|)
    requires forall k :: k != key ==> ValueIn(chain, k) == ValueIn(table[hash(key) % |table|], k)
    requires ValueIn(chain, key) == if key in m' then Some(m'[key]) else None
    requires forall k :: k != key ==> (k in m' <==> k in m) && (k in m ==> m'[k] == m[k])
    ensures Shows(table[hash(key) % |table| := chain], hash, m')
  {
    var table' := table[hash(key) % |table| := chain];
    forall k ensures Lookup(table', hash, k) == if k in m' then Some(m'[k]) else None {
      assert Lookup(table, hash, k) == if k in m then Some(m[k]) else None;
    }
  }

  lemma Found<V>(table: Table<V>, hash: int -> uint32, m: Contents<V>, key: int)
    requires Shows(table, hash, m)
    ensures var chain := table[hash(key) % |table|];
            && GoodChain(chain, hash, hash(key) % |table|, |table|)
            && (key in m <==> Position(chain, key) < |chain|)
            && (key in m ==> m[key] == chain[Position(chain, key)].value)
  {
    assert Lookup(table, hash, key) == if key in m then Some(m[key]) else None;
  }

  lemma AppendShows<V>(table: Table<V>, hash: int -> uint32, m: Contents<V>, key: int, value: Option<V>)
    requires Shows(table, hash, m) && key !in m
    ensures var b := hash(key) % |table|;
            Shows(table[b := table[b] + [Element(key, hash(key), value)]], hash, m[key := value])
  {
    var b, e := hash(key) % |table|, Element(key, hash(key), value);
    Found(table, hash, m, key);
    var chain := table[b] + [e];
    forall k ensures ValueIn(chain, k) == if k == key then Some(value) else ValueIn(table[b], k) {
      ValueInAppended(table[b], e, k);
    }
    assert UniqueKeys(chain);
    ChainReplaced(table, hash, m, key, chain, m[key := value]);
  }

  lemma ReplaceShows<V>(table: Table<V>, hash: int -> uint32, m: Contents<V>, key: int, value: Option<V>)
    requires Shows(table, hash, m) && key in m
    ensures var b := hash(key) % |table|;
            var i := Position(table[b], key);
            i < |table[b]| && Shows(table[b := table[b][i := table[b][i].(value := value)]], hash, m[key := value])
  {
    var b := hash(key) % |table|;
    Found(table, hash, m, key);
    var i := Position(table[b], key);
    var chain := table[b][i := table[b][i].(value := value)];
    forall k ensures ValueIn(chain, k) == if k == key then Some(value) else ValueIn(table[b], k) {
      ValueInReplaced(table[b], i, value, k);
    }
    ValueInReplaced(table[b], i, value, key);
    ChainReplaced(table, hash, m, key, chain, m[key := value]);
  }

  lemma RemoveShows<V>(table: Table<V>, hash: int -> uint32, m: Contents<V>, key: int)
    requires Shows(table, hash, m) && key in m
    ensures var b := hash(key) % |table|;
            var i := Position(table[b], key);
            i < |table[b]| && Shows(table[b := table[b][..i] + table[b][i + 1..]], hash, m - {key})
  {
    var b := hash(key) % |table|;
    Found(table, hash, m, key);
    var i := Position(table[b], key);
    var chain := table[b][..i] + table[b][i + 1..];
    forall k ensures ValueIn(chain, k) == if k == key then None else ValueIn(table[b], k) {
      ValueInRemoved(table[b], i, k);
    }
    ValueInRemoved(table[b], i, key);
    ChainReplaced(table, hash, m, key, chain, m - {key});
  }

  lemma OneLess<V>(m: Contents<V>, key: int)
    ensures |m - {key}| == |m| - if key in m then 1 else 0
  {
    var less := m - {key};
    if key in m {
      assert m.Keys == less.Keys + {key};
    } else {
      assert less == m;
    }
  }

  lemma EmptyShows<V>(size: nat, hash: int -> uint32)
    requires size > 0
    ensures Shows<V>(EmptyTable(size), hash, map[]) && NonEmpty<V>(EmptyTable(size)) == 0
  {
    EmptyTableUse<V>(EmptyTable(size));
  }

  // ---- passing over all the elements ----

  /** `part` is what a pass over the buckets has met before position i of bucket b. */
  ghost predicate Passed<V>(table: Table<V>, hash: int -> uint32, m: Contents<V>, b: nat, i: nat, part: Contents<V>)
    requires table != []
  {
    forall key {:trigger key in part} ::
      && (key in part <==> key in m && (hash(key) % |table| < b
                                        || (hash(key) % |table| == b && Position(table[b], key) < i)))
      && (key in part ==> part[key] == m[key])
  }

  lemma PassOne<V>(table: Table<V>, hash: int -> uint32, m: Contents<V>, b: nat, i: nat, part: Contents<V>)
    requires Shows(table, hash, m) && Passed(table, hash, m, b, i, part) && b < |table| && i < |table[b]|
    ensures var e := table[b][i];
            && e.key !in part && e.key in m && e.hash == hash(e.key) && m[e.key] == e.value
            && Passed(table, hash, m, b, i + 1, part[e.key := e.value])
  {
    var e := table[b][i];
    assert GoodChain(table[b], hash, b, |table|);
    Found(table, hash, m, e.key);
    var part' := part[e.key := e.value];
    forall key
      ensures key in part' <==>
              key in m && (hash(key) % |table| < b || (hash(key) % |table| == b && Position(table[b], key) < i + 1))
    {
      if key in m && hash(key) % |table| == b && Position(table[b], key) == i {
        Found(table, hash, m, key);
      }
      assert key != e.key ==> (key in part' <==> key in part);
    }
  }

  lemma PassBucket<V>(table: Table<V>, hash: int -> uint32, m: Contents<V>, b: nat, part: Contents<V>)
    requires Shows(table, hash, m) && b < |table| && Passed(table, hash, m, b, |table[b]|, part)
    ensures Passed(table, hash, m, b + 1, 0, part)
  {
    forall key | key in m && hash(key) % |table| == b ensures Position(table[b], key) < |table[b]| {
      Found(table, hash, m, key);
    }
  }

  lemma PassAll<V>(table: Table<V>, hash: int -> uint32, m: Contents<V>, part: Contents<V>)
    requires table != [] && Passed(table, hash, m, |table|, 0, part)
    ensures part == m
  {
    forall key | key in part || key in m ensures key in part && key in m && part[key] == m[key] {
      assert key in part <==> key in m;
    }
  }

  // ---- the map ----

  const DEFAULT_INITIAL_SIZE := 20

  class HashMap<V> {
    const hash: int -> uint32
    var elements: array<Chain<V>>
    var tableMaxSize: nat
    var tableCurrentSize: nat
    var elementsAmount: nat
    ghost var contents: Contents<V>
    /** Removals that took a null value away without counting it. */
    ghost var leaked: nat

    ghost predicate TableIs(m: Contents<V>)
      reads this, elements
    {
      && elements.Length == tableMaxSize && Shows(elements[..], hash, m)
      && tableCurrentSize == NonEmpty(elements[..])
    }

    ghost predicate Valid()
      reads this, elements
    {
      TableIs(contents) && elementsAmount == |contents| + leaked
    }

    constructor (hash: int -> uint32)
      ensures Valid() && fresh(elements) && contents == map[] && leaked == 0 && this.hash == hash
    {
      this.hash := hash;
      elements := new Chain<V>[DEFAULT_INITIAL_SIZE](_ => []);
      tableMaxSize, tableCurrentSize, elementsAmount := DEFAULT_INITIAL_SIZE, 0, 0;
      contents, leaked := map[], 0;
      new;
      EmptyShows<V>(DEFAULT_INITIAL_SIZE, hash);
      assert elements[..] == EmptyTable<V>(DEFAULT_INITIAL_SIZE);
    }

    function Index(key: int): nat
      requires tableMaxSize > 0
      reads this
    {
      hash(key) % tableMaxSize
    }

    /** `hashmap_get_element`: walks the chain of the key's bucket. */
    method FindElement(key: int) returns (b: nat, i: nat)
      requires TableIs(contents)
      ensures b == hash(key) % tableMaxSize < elements.Length && i == Position(elements[b], key)
      ensures key in contents <==> i < |elements[b]|
      ensures key in contents ==> contents[key] == elements[b][i].value
    {
      b := Index(key);
      i := 0;
      while i < |elements[b]| && elements[b][i].key != key
        invariant i <= |elements[b]| && forall j :: 0 <= j < i ==> elements[b][j].key != key
      {
        i := i + 1;
      }
      Found(elements[..], hash, contents, key);
    }

    method Get(key: int) returns (value: Option<V>)
      requires Valid()
      ensures value == if key in contents then contents[key] else None
    {
      var b, i := FindElement(key);
      value := if i < |elements[b]| then elements[b][i].value else None;
    }

    method Put(key: int, value: Option<V>)
      requires Valid()
      modifies this, elements
      ensures Valid() && contents == old(contents)[key := value] && leaked == old(leaked)
      ensures elements == old(elements) || fresh(elements)
      // the table doubles exactly when a new key takes the last unused bucket
      ensures 0 < old(tableMaxSize) == |old(elements[..])| && tableCurrentSize == NonEmpty(elements[..])
      ensures tableMaxSize == if key !in old(contents) && old(elements[..])[hash(key) % old(tableMaxSize)] == []
                                 && old(tableMaxSize) <= old(tableCurrentSize) + 1
                              then 2 * old(tableMaxSize) else old(tableMaxSize)
    {
      var b, i := FindElement(key);
      NonEmptyUpdate(elements[..], b, elements[b]);
      if i < |elements[b]| {
        ReplaceShows(elements[..], hash, contents, key, value);
        ghost var chain := elements[b][i := elements[b][i].(value := value)];
        NonEmptyUpdate(elements[..], b, chain);
        elements[b] := elements[b][i := elements[b][i].(value := value)];
        assert elements[..] == old(elements[..])[b := chain];
        assert contents[key := value].Keys == contents.Keys;
        contents := contents[key := value];
        return;
      }
      Append(b, key, value);
      elementsAmount := elementsAmount + 1;
    }

    /** A new element at the end of a chain; the first of a chain may make the table grow. */
    method Append(b: nat, key: int, value: Option<V>)
      requires TableIs(contents) && key !in contents && tableMaxSize > 0 && b == Index(key)
      modifies this`elements, this`tableMaxSize, this`tableCurrentSize, this`contents, elements
      ensures TableIs(contents) && contents == old(contents)[key := value]
      ensures elements == old(elements) || fresh(elements)
      ensures tableMaxSize ==
              if old(elements[..])[b] == [] && old(tableMaxSize) <= old(tableCurrentSize) + 1 then 2 * old(tableMaxSize)
              else old(tableMaxSize)
    {
      var e := Element(key, hash(key), value);
      AppendShows(elements[..], hash, contents, key, value);
      NonEmptyUpdate(elements[..], b, elements[b] + [e]);
      contents := contents[key := value];
      if elements[b] == [] {
        elements[b] := [e];
        assert old(elements[b]) + [e] == [e];
        assert elements[..] == old(elements[..])[b := old(elements[b]) + [e]];
        tableCurrentSize := tableCurrentSize + 1;
        if tableCurrentSize >= tableMaxSize {
          Resize(tableMaxSize * 2);
        }
      } else {
        elements[b] := elements[b] + [e];
        assert elements[..] == old(elements[..])[b := old(elements[b]) + [e]];
      }
    }

    /** Moves every element to the bucket it has in a table of another size. */
    method Resize(newMaxSize: nat)
      requires TableIs(contents) && newMaxSize > 0
      modifies this`elements, this`tableMaxSize, this`tableCurrentSize
      ensures TableIs(contents) && tableMaxSize == newMaxSize && fresh(elements)
    {
      var newTable := new Chain<V>[newMaxSize](_ => []);
      EmptyShows<V>(newMaxSize, hash);
      assert newTable[..] == EmptyTable<V>(newMaxSize);
      tableCurrentSize := 0;
      ghost var part: Contents<V> := map[];
      for b := 0 to tableMaxSize
        invariant elements == old(elements) && elements.Length == tableMaxSize > 0 && newTable.Length == newMaxSize
                  && fresh(newTable)
        invariant Shows(elements[..], hash, contents)
        invariant Shows(newTable[..], hash, part) && tableCurrentSize == NonEmpty(newTable[..])
        invariant Passed(elements[..], hash, contents, b, 0, part)
      {
        part := MoveBucket(newTable, b, part);
      }
      PassAll(elements[..], hash, contents, part);
      tableMaxSize := newMaxSize;
      elements := newTable;
    }

    method MoveBucket(newTable: array<Chain<V>>, b: nat, ghost before: Contents<V>) returns (ghost part: Contents<V>)
      requires b < elements.Length && Shows(elements[..], hash, contents) && newTable != elements
      requires Shows(newTable[..], hash, before) && tableCurrentSize == NonEmpty(newTable[..])
      requires Passed(elements[..], hash, contents, b, 0, before)
      modifies newTable, this`tableCurrentSize
      ensures Shows(newTable[..], hash, part) && tableCurrentSize == NonEmpty(newTable[..])
      ensures Passed(elements[..], hash, contents, b + 1, 0, part)
    {
      part := before;
      for i := 0 to |elements[b]|
        invariant Shows(newTable[..], hash, part) && tableCurrentSize == NonEmpty(newTable[..])
        invariant Passed(elements[..], hash, contents, b, i, part)
      {
        PassOne(elements[..], hash, contents, b, i, part);
        MoveElement(newTable, elements[b][i], part);
        part := part[elements[b][i].key := elements[b][i].value];
      }
      PassBucket(elements[..], hash, contents, b, part);
    }

    method MoveElement(newTable: array<Chain<V>>, e: Element<V>, ghost part: Contents<V>)
      requires Shows(newTable[..], hash, part) && tableCurrentSize == NonEmpty(newTable[..])
      requires e.key !in part && e.hash == hash(e.key)
      modifies newTable, this`tableCurrentSize
      ensures Shows(newTable[..], hash, part[e.key := e.value]) && tableCurrentSize == NonEmpty(newTable[..])
    {
      var newIndex := e.hash % newTable.Length;
      AppendShows(newTable[..], hash, part, e.key, e.value);
      NonEmptyUpdate(newTable[..], newIndex, newTable[newIndex] + [e]);
      if newTable[newIndex] == [] {
        newTable[newIndex] := [e];
        assert old(newTable[newIndex]) + [e] == [e];
        tableCurrentSize := tableCurrentSize + 1;
      } else {
        newTable[newIndex] := newTable[newIndex] + [e];
      }
      assert newTable[..] == old(newTable[..])[newIndex := old(newTable[newIndex]) + [e]];
    }

    /** The element goes in any case; the count only follows when its value was not null. */
    method Remove(key: int) returns (data: Option<V>)
      requires Valid()
      modifies this`tableCurrentSize, this`elementsAmount, this`contents, this`leaked, elements
      ensures Valid() && contents == old(contents) - {key}
      ensures data == if key in old(contents) then old(contents)[key] else None
      ensures leaked == old(leaked) + if key in old(contents) && data.None? then 1 else 0
    {
      OneLess(contents, key);
      data := RemoveElement(key);
      if data.Some? {
        elementsAmount := elementsAmount - 1;
      } else {
        leaked := leaked + if key in old(contents) then 1 else 0;
      }
    }

    method RemoveElement(key: int) returns (data: Option<V>)
      requires TableIs(contents)
      modifies this`tableCurrentSize, this`contents, elements
      ensures TableIs(contents) && contents == old(contents) - {key}
      ensures data == if key in old(contents) then old(contents)[key] else None
    {
      var b, i := FindElement(key);
      if i == |elements[b]| {
        assert contents - {key} == contents;
        return None;
      }
      RemoveShows(elements[..], hash, contents, key);
      ghost var chain := elements[b][..i] + elements[b][i + 1..];
      NonEmptyUpdate(elements[..], b, chain);
      data := elements[b][i].value;
      if i == 0 {
        assert chain == elements[b][1..];
        elements[b] := elements[b][1..];
        if elements[b] == [] {
          tableCurrentSize := tableCurrentSize - 1;
        }
      } else {
        elements[b] := elements[b][..i] + elements[b][i + 1..];
      }
      assert elements[..] == old(elements[..])[b := chain];
      contents := contents - {key};
    }

    /** `hashmap_iterate`: the pairs the closure is called with, each entry of the map exactly once. */
    method Iterate() returns (visited: seq<(int, Option<V>)>)
      requires Valid()
      ensures |visited| == |contents|
      ensures forall i :: 0 <= i < |visited| ==> visited[i].0 in contents && visited[i].1 == contents[visited[i].0]
      ensures forall key :: key in contents ==> (key, contents[key]) in visited
    {
      visited := [];
      ghost var part: Contents<V> := map[];
      for b := 0 to tableMaxSize
        invariant Passed(elements[..], hash, contents, b, 0, part) && Visited(visited, part)
      {
        for i := 0 to |elements[b]|
          invariant Passed(elements[..], hash, contents, b, i, part) && Visited(visited, part)
        {
          PassOne(elements[..], hash, contents, b, i, part);
          visited := visited + [(elements[b][i].key, elements[b][i].value)];
          part := part[elements[b][i].key := elements[b][i].value];
        }
        PassBucket(elements[..], hash, contents, b, part);
      }
      PassAll(elements[..], hash, contents, part);
    }

    /** The size is exact when, and only when, no null value was removed. */
    method Size() returns (n: nat)
      requires Valid()
      ensures n == |contents| <==> leaked == 0
    {
      n := elementsAmount;
    }
  }

  /** The pairs are the entries of the map, as many as there are entries. */
  ghost predicate Visited<V>(visited: seq<(int, Option<V>)>, part: Contents<V>) {
    && |visited| == |part|
    && (forall i :: 0 <= i < |visited| ==> visited[i].0 in part && visited[i].1 == part[visited[i].0])
    && (forall key :: key in part ==> (key, part[key]) in visited)
  }

}
