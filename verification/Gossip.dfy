/**
 How memories learn of each other: a handshake gives the receiver the caller's table and the caller the answer.  Without
 failures a memory is known exactly where a chain of handshakes, each after the one before, has led from it.
 */
module Gossip {
  import opened Basics

  // ---- who knows whom ----

  /** A handshake between two memories, as one exchange. */
  datatype Handshake = Handshake(caller: nat, receiver: nat)

  predicate Takes(h: Handshake, n: nat) {
    n == h.caller || n == h.receiver
  }

  /** The memories in the table of n after some handshakes. */
  ghost function Known(hs: seq<Handshake>, n: nat): set<nat> {
    if hs == [] then {}
    else
      var before, h := hs[..|hs| - 1], hs[|hs| - 1];
      if Takes(h, n) then Known(before, h.caller) + Known(before, h.receiver) + {h.caller, h.receiver}
      else Known(before, n)
  }

  /** One handshake of a chain: news goes from one of its memories to one of them. */
  datatype Hop = Hop(when: nat, from: nat, to: nat)

  predicate IsHop(hs: seq<Handshake>, hop: Hop) {
    hop.when < |hs| && Takes(hs[hop.when], hop.from) && Takes(hs[hop.when], hop.to)
  }

  /** A chain of handshakes in the order of time that leads from m to n. */
  ghost predicate IsChain(hs: seq<Handshake>, hops: seq<Hop>, m: nat, n: nat) {
    && hops != [] && hops[0].from == m && hops[|hops| - 1].to == n
    && (forall i :: 0 <= i < |hops| ==> IsHop(hs, hops[i]))
    && (forall i :: 0 <= i < |hops| - 1 ==> hops[i].to == hops[i + 1].from && hops[i].when < hops[i + 1].when)
  }

  /** From a table entry to a chain. */
  lemma {:induction false} KnownHasChain(hs: seq<Handshake>, m: nat, n: nat) returns (hops: seq<Hop>)
    requires m in Known(hs, n)
    ensures IsChain(hs, hops, m, n)
  {
    var before, h := hs[..|hs| - 1], hs[|hs| - 1];
    assert hs == before + [h];
    if !Takes(h, n) {
      hops := KnownHasChain(before, m, n);
    } else if m in Known(before, h.caller) {
      hops := KnownHasChain(before, m, h.caller);
      hops := hops + [Hop(|before|, h.caller, n)];
    } else if m in Known(before, h.receiver) {
      hops := KnownHasChain(before, m, h.receiver);
      hops := hops + [Hop(|before|, h.receiver, n)];
    } else {
      hops := [Hop(|before|, m, n)];
    }
  }

  lemma {:induction false} TimesGrow(hs: seq<Handshake>, hops: seq<Hop>, m: nat, n: nat, i: nat)
    requires IsChain(hs, hops, m, n) && i < |hops|
    ensures hops[i].when <= hops[|hops| - 1].when && (i < |hops| - 1 ==> hops[i].when < hops[|hops| - 1].when)
    decreases |hops| - i
  {
    if i < |hops| - 1 {
      TimesGrow(hs, hops, m, n, i + 1);
    }
  }

  /** And back. */
  lemma {:induction false} ChainIsKnown(hs: seq<Handshake>, hops: seq<Hop>, m: nat, n: nat)
    requires IsChain(hs, hops, m, n)
    ensures m in Known(hs, n)
    decreases |hs|
  {
    var last := hops[|hops| - 1];
    assert IsHop(hs, last);
    var before, h := hs[..|hs| - 1], hs[|hs| - 1];
    forall i | 0 <= i < |hops| ensures IsHop(hs, hops[i]) && hops[i].when <= last.when
                                       && (i < |hops| - 1 ==> hops[i].when < last.when)
    {
      TimesGrow(hs, hops, m, n, i);
    }
    if last.when < |hs| - 1 {
      forall i | 0 <= i < |hops| ensures IsHop(before, hops[i]) {
        assert IsHop(hs, hops[i]);
      }
      ChainIsKnown(before, hops, m, n);
    } else if |hops| > 1 {
      var shorter := hops[..|hops| - 1];
      forall i | 0 <= i < |shorter| ensures IsHop(before, shorter[i]) {
        assert IsHop(hs, hops[i]);
      }
      ChainIsKnown(before, shorter, m, last.from);
    }
  }

  /** A memory is in the table of another exactly when a chain of handshakes led from it there. */
  lemma KnownIff(hs: seq<Handshake>, m: nat, n: nat)
    ensures m in Known(hs, n) <==> exists hops :: IsChain(hs, hops, m, n)
  {
    if m in Known(hs, n) {
      var hops := KnownHasChain(hs, m, n);
    }
    if hops :| IsChain(hs, hops, m, n) {
      ChainIsKnown(hs, hops, m, n);
    }
  }

  // ---- one memory ----

  /** IP and port. */
  type Address = string

  datatype Answer = Silent | HungUp | Nonsense | Listed(items: seq<(uint32, Address)>)

  predicate Failed(a: Address, answers: map<Address, Answer>) {
    a !in answers || answers[a].Silent? || answers[a].HungUp?
  }

  /** An entry of a table as it travels. */
  type Item = (uint32, Address)

  ghost function SetOf(items: seq<Item>): set<Item> {
    set i | 0 <= i < |items| :: items[i]
  }

  ghost function Ids(items: set<Item>): set<uint32> {
    set e | e in items :: e.0
  }

  ghost function Addresses(items: set<Item>): set<Address> {
    set e | e in items :: e.1
  }

  /** A table after the entries of a list, the later ones replacing the earlier. */
  function PutAll(table: map<uint32, Address>, items: seq<Item>): map<uint32, Address> {
    if items == [] then table
    else
      var last := items[|items| - 1];
      PutAll(table, items[..|items| - 1]) + map[last.0 := last.1]
  }

  /** A table that has learnt some entries, except blocked ids: whose address is new and whose is not. */
  ghost predicate Learnt(before: map<uint32, Address>, after: map<uint32, Address>, items: set<Item>,
                         blocked: set<uint32>)
  {
    && (forall m: uint32 :: m in after <==> (m in before || m in Ids(items)) && m !in blocked)
    && (forall m :: m in after ==>
       if m in Ids(items) then (m, after[m]) in items else m in before && after[m] == before[m])
  }

  /** Peers that were told of some entries. */
  ghost predicate Told(before: map<Address, uint32>, after: map<Address, uint32>, items: set<Item>) {
    && after.Keys == before.Keys + Addresses(items)
    && (forall a :: a in after ==>
       if a in Addresses(items) then (after[a], a) in items else a in before && after[a] == before[a])
  }

  /** Old peers stay as they are, and the addresses of some entries of the table are peers too. */
  ghost predicate Joined(before: map<Address, uint32>, after: map<Address, uint32>, table: map<uint32, Address>,
                         done: set<uint32>)
  {
    && (forall a :: a in before ==> a in after && after[a] == before[a])
    && (forall a :: a in after && a !in before ==> after[a] in table && table[after[a]] == a)
    && (forall m :: m in done && m in table ==> table[m] in after)
  }

  lemma JoinOne(before: map<Address, uint32>, after: map<Address, uint32>, table: map<uint32, Address>,
                done: set<uint32>, m: uint32)
    requires Joined(before, after, table, done) && m in table
    ensures Joined(before, if table[m] in after then after else after + map[table[m] := m], table, done + {m})
  {
  }

  lemma LearnOne(before: map<uint32, Address>, after: map<uint32, Address>, items: seq<Item>, blocked: set<uint32>,
                 item: Item)
    requires Learnt(before, after, SetOf(items), blocked)
    ensures Learnt(before, if item.0 in blocked then after else after + map[item.0 := item.1],
                   SetOf(items + [item]), blocked)
  {
    SetOfAppend(items, item);
  }

  lemma TellOne(before: map<Address, uint32>, after: map<Address, uint32>, items: seq<Item>, item: Item)
    requires Told(before, after, SetOf(items))
    ensures Told(before, after + map[item.1 := item.0], SetOf(items + [item]))
  {
    SetOfAppend(items, item);
  }

  lemma LearntNothing(table: map<uint32, Address>, peers: map<Address, uint32>, blocked: set<uint32>, gone: set<uint32>)
    requires blocked !! table.Keys
    ensures Learnt(table, table - gone, {}, blocked + gone) && Told(peers, peers, {})
  {
  }

  lemma {:induction false} PutAllLearns(table: map<uint32, Address>, items: seq<Item>)
    ensures Learnt(table, PutAll(table, items), SetOf(items), {})
  {
    if items != [] {
      var before, last := items[..|items| - 1], items[|items| - 1];
      PutAllLearns(table, before);
      LearnOne(table, PutAll(table, before), before, {}, last);
      assert before + [last] == items;
    }
  }

  lemma SetOfAppend(items: seq<Item>, item: Item)
    ensures SetOf(items + [item]) == SetOf(items) + {item}
    ensures Ids(SetOf(items) + {item}) == Ids(SetOf(items)) + {item.0}
    ensures Addresses(SetOf(items) + {item}) == Addresses(SetOf(items)) + {item.1}
  {
    var longer := items + [item];
    assert longer[|items|] == item;
    forall e | e in SetOf(items) ensures e in SetOf(longer) {
      var i :| 0 <= i < |items| && items[i] == e;
      assert longer[i] == e;
    }
    forall m | m in Ids(SetOf(items)) ensures m in Ids(SetOf(items) + {item}) {
      var e :| e in SetOf(items) && e.0 == m;
      assert e in SetOf(items) + {item};
    }
    forall a | a in Addresses(SetOf(items)) ensures a in Addresses(SetOf(items) + {item}) {
      var e :| e in SetOf(items) && e.1 == a;
      assert e in SetOf(items) + {item};
    }
    assert item in SetOf(items) + {item};
  }

  lemma UnionIds(a: set<Item>, b: set<Item>)
    ensures Ids(a + b) == Ids(a) + Ids(b) && Addresses(a + b) == Addresses(a) + Addresses(b)
  {
    forall e | e in a + b ensures e.0 in Ids(a) + Ids(b) && e.1 in Addresses(a) + Addresses(b) {
    }
    forall m | m in Ids(a) + Ids(b) ensures m in Ids(a + b) {
      var e :| e in a + b && e.0 == m;
    }
    forall m | m in Addresses(a) + Addresses(b) ensures m in Addresses(a + b) {
      var e :| e in a + b && e.1 == m;
    }
  }

  /** Learning twice, with more blocked the second time, is learning both lots of entries at once. */
  lemma LearntTwice(t0: map<uint32, Address>, t1: map<uint32, Address>, t2: map<uint32, Address>,
                    a: set<Item>, b: set<Item>, blocked: set<uint32>, blocked': set<uint32>)
    requires Learnt(t0, t1, a, blocked) && Learnt(t1, t2, b, blocked') && blocked <= blocked'
    ensures Learnt(t0, t2, a + b, blocked')
  {
    UnionIds(a, b);
  }

  lemma ToldTwice(p0: map<Address, uint32>, p1: map<Address, uint32>, p2: map<Address, uint32>, a: set<Item>,
                  b: set<Item>)
    requires Told(p0, p1, a) && Told(p1, p2, b)
    ensures Told(p0, p2, a + b)
  {
    UnionIds(a, b);
  }

  // ---- what the peers of a round say ----

  /** The entries of the peer at an address, which is not asked when it is the memory itself. */
  ghost function ItemsFrom(known: map<Address, uint32>, answers: map<Address, Answer>, self: uint32,
                           a: Address): set<Item>
    requires a in known
  {
    if known[a] != self && a in answers && answers[a].Listed? then SetOf(answers[a].items) else {}
  }

  ghost function AllItems(known: map<Address, uint32>, answers: map<Address, Answer>, self: uint32,
                          asked: set<Address>): set<Item>
    requires asked <= known.Keys
  {
    set a, e | a in asked && e in ItemsFrom(known, answers, self, a) :: e
  }

  /** The known ids of the peers that did not answer. */
  ghost function FailedIds(known: map<Address, uint32>, answers: map<Address, Answer>, self: uint32,
                           asked: set<Address>): set<uint32>
    requires asked <= known.Keys
  {
    set a | a in asked && known[a] != self && known[a] != 0 && Failed(a, answers) :: known[a]
  }

  lemma AskOne(known: map<Address, uint32>, answers: map<Address, Answer>, self: uint32,
               asked: set<Address>,
               a: Address)
    requires asked <= known.Keys && a in known
    ensures AllItems(known, answers, self, asked + {a}) ==
            AllItems(known, answers, self, asked) + ItemsFrom(known, answers, self, a)
    ensures FailedIds(known, answers, self, asked + {a}) == FailedIds(known, answers, self, asked)
            + if known[a] != self && known[a] != 0 && Failed(a, answers) then {known[a]} else {}
  {
    var more := asked + {a};
    forall e | e in AllItems(known, answers, self, asked) + ItemsFrom(known, answers, self, a)
      ensures e in AllItems(known, answers, self, more)
    {
      if e in ItemsFrom(known, answers, self, a) {
        assert a in more;
      } else {
        var b :| b in asked && e in ItemsFrom(known, answers, self, b);
        assert b in more;
      }
    }
  }

  /** What a round has done after asking some of the peers. */
  ghost predicate RoundSoFar(before: map<uint32, Address>, table: map<uint32, Address>, found: map<Address, uint32>,
                             blocked: set<uint32>, known: map<Address, uint32>, answers: map<Address, Answer>,
                             self: uint32, asked: set<Address>)
  {
    && asked <= known.Keys && blocked == FailedIds(known, answers, self, asked)
    && Learnt(before, table, AllItems(known, answers, self, asked), blocked)
    && Told(map[], found, AllItems(known, answers, self, asked))
  }

  /** The same, stated so that the verifier looks inside only where `RoundSoFar` is mentioned. */
  ghost predicate AfterAsking(before: map<uint32, Address>, table: map<uint32, Address>, found: map<Address, uint32>,
                              blocked: set<uint32>, known: map<Address, uint32>, answers: map<Address, Answer>,
                              self: uint32, asked: set<Address>)
  {
    forall x {:trigger RoundSoFar(before, table, found, blocked, known, answers, self, x)} :: x == asked ==>
      RoundSoFar(before, table, found, blocked, known, answers, self, x)
  }

  lemma RoundEnds(before: map<uint32, Address>, table: map<uint32, Address>, found: map<Address, uint32>,
                  blocked: set<uint32>, known: map<Address, uint32>, answers: map<Address, Answer>, self: uint32,
                  asked: set<Address>)
    requires AfterAsking(before, table, found, blocked, known, answers, self, asked) && asked == known.Keys
    ensures blocked == FailedIds(known, answers, self, known.Keys)
    ensures Learnt(before, table, AllItems(known, answers, self, known.Keys), blocked)
    ensures Told(known, known + found, AllItems(known, answers, self, known.Keys))
  {
    assert RoundSoFar(before, table, found, blocked, known, answers, self, asked);
  }

  lemma NothingBlockedIsLearnt(before: map<uint32, Address>, table: map<uint32, Address>, found: map<Address, uint32>,
                               blocked: set<uint32>, known: map<Address, uint32>, answers: map<Address, Answer>,
                               self: uint32, asked: set<Address>)
    requires AfterAsking(before, table, found, blocked, known, answers, self, asked)
    ensures blocked !! table.Keys
  {
    assert RoundSoFar(before, table, found, blocked, known, answers, self, asked);
  }

  lemma RoundStarts(table: map<uint32, Address>, known: map<Address, uint32>, answers: map<Address, Answer>,
                    self: uint32)
    ensures AfterAsking(table, table, map[], {}, known, answers, self, {})
  {
    assert AllItems(known, answers, self, {}) == {};
  }

  lemma RoundContinues(before: map<uint32, Address>, table: map<uint32, Address>, found: map<Address, uint32>,
                       blocked: set<uint32>, known: map<Address, uint32>, answers: map<Address, Answer>, self: uint32,
                       asked: set<Address>,
                       a: Address, table': map<uint32, Address>, found': map<Address, uint32>, blocked': set<uint32>)
    requires AfterAsking(before, table, found, blocked, known, answers, self, asked) && a in known
    requires blocked' == blocked + if known[a] != self && known[a] != 0 && Failed(a, answers) then {known[a]} else {}
    requires Learnt(table, table', ItemsFrom(known, answers, self, a), blocked')
    requires Told(found, found', ItemsFrom(known, answers, self, a))
    ensures AfterAsking(before, table', found', blocked', known, answers, self, asked + {a})
  {
    assert RoundSoFar(before, table, found, blocked, known, answers, self, asked);
    var items, more := AllItems(known, answers, self, asked), ItemsFrom(known, answers, self, a);
    AskOne(known, answers, self, asked, a);
    LearntTwice(before, table, table', items, more, blocked, blocked');
    ToldTwice(map[], found, found', items, more);
  }

  /** Who says hello in a handshake: the kernel sends nothing about itself. */
  datatype Hello = Stranger | FromKernel | FromMemory(otherId: uint32, otherAddress: Address, items: seq<Item>)

  ghost predicate Mentions(items: seq<Item>, m: uint32) {
    exists i :: 0 <= i < |items| && items[i].0 == m
  }

  /** No later entry has the id of this one. */
  ghost predicate IsLast(items: seq<Item>, i: nat) {
    i < |items| && forall j :: i < j < |items| ==> items[j].0 != items[i].0
  }

  /** No later entry has the address of this one. */
  ghost predicate IsLastAt(items: seq<Item>, i: nat) {
    i < |items| && forall j :: i < j < |items| ==> items[j].1 != items[i].1
  }

  /** The last entry of an id that is not blocked gives its address. */
  ghost predicate LastWins(table: map<uint32, Address>, items: seq<Item>, blocked: set<uint32>) {
    forall i: nat {:trigger IsLast(items, i)} :: IsLast(items, i) && items[i].0 !in blocked ==>
      items[i].0 in table && table[items[i].0] == items[i].1
  }

  /** The last entry of an address gives its id. */
  ghost predicate LastFound(found: map<Address, uint32>, items: seq<Item>) {
    forall i: nat {:trigger IsLastAt(items, i)} :: IsLastAt(items, i) ==>
      items[i].1 in found && found[items[i].1] == items[i].0
  }

  lemma LastWinsStep(table: map<uint32, Address>, items: seq<Item>, blocked: set<uint32>, item: Item)
    requires LastWins(table, items, blocked)
    ensures LastWins(if item.0 in blocked then table else table + map[item.0 := item.1], items + [item], blocked)
  {
    var table', n := if item.0 in blocked then table else table + map[item.0 := item.1], |items|;
    forall i: nat | IsLast(items + [item], i) && (items + [item])[i].0 !in blocked
      ensures (items + [item])[i].0 in table' && table'[(items + [item])[i].0] == (items + [item])[i].1
    {
      if i < n {
        assert (items + [item])[n] == item && (items + [item])[i] == items[i];
        assert forall j :: i < j < n ==> (items + [item])[j] == items[j];
        assert IsLast(items, i);
      }
    }
  }

  lemma LastFoundStep(found: map<Address, uint32>, items: seq<Item>, item: Item)
    requires LastFound(found, items)
    ensures LastFound(found + map[item.1 := item.0], items + [item])
  {
    var found', n := found + map[item.1 := item.0], |items|;
    forall i: nat | IsLastAt(items + [item], i)
      ensures (items + [item])[i].1 in found' && found'[(items + [item])[i].1] == (items + [item])[i].0
    {
      if i < n {
        assert (items + [item])[n] == item && (items + [item])[i] == items[i];
        assert forall j :: i < j < n ==> (items + [item])[j] == items[j];
        assert IsLastAt(items, i);
      }
    }
  }

  /** The last entry of an id decides its address; ids that are not listed keep theirs. */
  lemma {:induction false} PutAllFinds(table: map<uint32, Address>, items: seq<Item>)
    ensures LastWins(PutAll(table, items), items, {})
    ensures forall m: uint32 {:trigger Mentions(items, m)} :: !Mentions(items, m) ==>
              (m in PutAll(table, items) <==> m in table) && (m in table ==> PutAll(table, items)[m] == table[m])
  {
    if items != [] {
      var n := |items| - 1;
      PutAllFinds(table, items[..n]);
      LastWinsStep(PutAll(table, items[..n]), items[..n], {}, items[n]);
      assert items[..n] + [items[n]] == items;
      forall m: uint32 | !Mentions(items, m)
        ensures (m in PutAll(table, items) <==> m in table) && (m in table ==> PutAll(table, items)[m] == table[m])
      {
        assert items[n].0 != m;
        assert !Mentions(items[..n], m);
      }
    }
  }

  /** The ids that are not listed have what the table had before the list. */
  lemma OthersUnlisted(before: map<uint32, Address>, self: uint32, myAddress: Address, otherId: uint32,
                       otherAddress: Address, start: map<uint32, Address>, after: map<uint32, Address>,
                       items: seq<Item>)
    requires start == before + map[self := myAddress] + map[otherId := otherAddress]
    requires forall m: uint32 {:trigger Mentions(items, m)} :: !Mentions(items, m) ==>
               (m in after <==> m in start) && (m in start ==> after[m] == start[m])
    ensures start == before[self := myAddress][otherId := otherAddress]
    ensures !Mentions(items, otherId) ==> otherId in after && after[otherId] == otherAddress
    ensures self != otherId && !Mentions(items, self) ==> self in after && after[self] == myAddress
    ensures forall m: uint32 {:trigger Mentions(items, m)} ::
              m != self && m != otherId && !Mentions(items, m) ==>
              (m in after <==> m in before) && (m in after ==> after[m] == before[m])
  {
  }

  class Memory {
    const id: uint32
    const port: string
    /** Known peers; the memory id is 0 while it is not known.  None is ever removed. */
    var peers: map<Address, uint32>
    /** The table that is exchanged. */
    var table: map<uint32, Address>

    constructor (id: uint32, port: string, seeds: seq<Address>)
      ensures this.id == id && table == map[] && peers == map a | a in seeds :: 0
    {
      this.id, this.port := id, port;
      table, peers := map[], map a | a in seeds :: 0;
    }

    method AddMemory(memId: uint32, address: Address)
      modifies this`table
      ensures table == old(table) + map[memId := address]
    {
      table := table + map[memId := address];
    }

    /** The table as the list that travels, in whatever order the hash map gives. */
    method SendTable() returns (items: seq<Item>)
      ensures forall e :: e in SetOf(items) <==> e.0 in table && table[e.0] == e.1
    {
      items := [];
      var todo := table.Keys;
      while todo != {}
        invariant todo <= table.Keys
        invariant forall e :: e in SetOf(items) <==> e.0 in table.Keys - todo && table[e.0] == e.1
        decreases |todo|
      {
        var m :| m in todo;
        SetOfAppend(items, (m, table[m]));
        items := items + [(m, table[m])];
        todo := todo - {m};
      }
    }

    /** `HandleHandshakeOpcode`: the answer is the table as it is then; a stranger gets none. */
    method HandleHandshake(myAddress: Address, hello: Hello) returns (reply: Option<seq<Item>>)
      modifies this`table
      ensures hello.Stranger? ==> table == old(table) && reply.None?
      ensures hello.FromKernel? ==> table == old(table)[id := myAddress]
      ensures hello.FromMemory? ==>
                Learnt(old(table)[id := myAddress][hello.otherId := hello.otherAddress], table, SetOf(hello.items), {})
      // the last entry of an id gives its address; else the caller has its own, then the receiver, then what was there
      ensures hello.FromMemory? ==> LastWins(table, hello.items, {})
      ensures hello.FromMemory? && !Mentions(hello.items, hello.otherId) ==>
                hello.otherId in table && table[hello.otherId] == hello.otherAddress
      ensures hello.FromMemory? && id != hello.otherId && !Mentions(hello.items, id) ==>
                id in table && table[id] == myAddress
      ensures hello.FromMemory? ==> forall m: uint32 {:trigger Mentions(hello.items, m)} ::
                m != id && m != hello.otherId && !Mentions(hello.items, m) ==>
                (m in table <==> m in old(table)) && (m in table ==> table[m] == old(table)[m])
      ensures reply.None? <==> hello.Stranger?
      ensures reply.Some? ==> forall e :: e in SetOf(reply.value) <==> e.0 in table && table[e.0] == e.1
    {
      if hello.Stranger? {
        return None;
      }
      AddMemory(id, myAddress);
      if hello.FromMemory? {
        AddMemory(hello.otherId, hello.otherAddress);
        ghost var start := table;
        AddMemories(hello.items);
        OthersUnlisted(old(table), id, myAddress, hello.otherId, hello.otherAddress, start, table, hello.items);
      }
      var list := SendTable();
      reply := Some(list);
    }

    /** The entries of a list, in their order. */
    method AddMemories(items: seq<Item>)
      modifies this`table
      ensures table == PutAll(old(table), items) && Learnt(old(table), table, SetOf(items), {})
      ensures LastWins(table, items, {})
      ensures forall m: uint32 {:trigger Mentions(items, m)} :: !Mentions(items, m) ==>
                (m in table <==> m in old(table)) && (m in table ==> table[m] == old(table)[m])
    {
      PutAllLearns(table, items);
      PutAllFinds(table, items);
      for i := 0 to |items|
        invariant table == PutAll(old(table), items[..i])
      {
        assert items[..i + 1][..i] == items[..i];
        AddMemory(items[i].0, items[i].1);
      }
      assert items[..|items|] == items;
    }

    // ---- a round of the worker ----

    /** What an earlier handshake from another memory put into the table becomes a known peer. */
    method AddNewGossips()
      modifies this`peers
      ensures Joined(old(peers), peers, table, table.Keys)
    {
      var todo := table.Keys;
      assert table.Keys - todo == {};
      while todo != {}
        invariant todo <= table.Keys && Joined(old(peers), peers, table, table.Keys - todo)
        decreases |todo|
      {
        var m :| m in todo;
        JoinOne(old(peers), peers, table, table.Keys - todo, m);
        assert table.Keys - (todo - {m}) == table.Keys - todo + {m};
        todo := todo - {m};
        if table[m] !in peers {
          peers := peers + map[table[m] := m];
        }
      }
      assert table.Keys - todo == table.Keys;
    }

    /** `_removeAndBlock`. */
    method RemoveAndBlock(blacklist: set<uint32>, memId: uint32) returns (blocked: set<uint32>)
      modifies this`table
      ensures table == old(table) - {memId} && blocked == blacklist + {memId}
    {
      table := table - {memId};
      blocked := blacklist + {memId};
    }

    /** The handshake with one peer, by how it went. */
    method GossipWith(address: Address, memId: uint32, answer: Answer, blacklist: set<uint32>,
                      discoveries: map<Address, uint32>)
      returns (blocked: set<uint32>, found: map<Address, uint32>)
      requires blacklist !! table.Keys
      modifies this`table
      ensures blocked ==
              if memId != id && memId != 0 && (answer.Silent? || answer.HungUp?) then blacklist + {memId} else blacklist
      ensures var items := if memId != id && answer.Listed? then SetOf(answer.items) else {};
              Learnt(old(table), table, items, blocked) && Told(discoveries, found, items)
      ensures memId != id && answer.Listed? ==> LastWins(table, answer.items, blocked) && LastFound(found, answer.items)
    {
      blocked, found := blacklist, discoveries;
      if memId == id {
        LearntNothing(table, discoveries, blacklist, {});
        assert table - {} == table && blacklist + {} == blacklist;
        return;
      }
      LearntNothing(table, discoveries, blacklist,
                    if (answer.Silent? || answer.HungUp?) && memId != 0 then {memId} else {});
      match answer
      case Silent => if memId != 0 { blocked := RemoveAndBlock(blacklist, memId); }
      case HungUp => if memId != 0 { blocked := RemoveAndBlock(blacklist, memId); }
      case Nonsense =>
      case Listed(items) => found := MergeList(items, blacklist, discoveries);
    }

    /** The answer of a peer: every entry is a discovery, and those that are not blocked go into the table. */
    method MergeList(items: seq<Item>, blacklist: set<uint32>, discoveries: map<Address, uint32>)
      returns (found: map<Address, uint32>)
      requires blacklist !! table.Keys
      modifies this`table
      ensures Learnt(old(table), table, SetOf(items), blacklist) && Told(discoveries, found, SetOf(items))
      ensures LastWins(table, items, blacklist) && LastFound(found, items)
    {
      found := discoveries;
      LearntNothing(table, discoveries, blacklist, {});
      assert SetOf(items[..0]) == {} && table - {} == table && blacklist + {} == blacklist;
      for i := 0 to |items|
        invariant Learnt(old(table), table, SetOf(items[..i]), blacklist) && Told(discoveries, found, SetOf(items[..i]))
        invariant LastWins(table, items[..i], blacklist) && LastFound(found, items[..i])
      {
        assert items[..i + 1] == items[..i] + [items[i]];
        LearnOne(old(table), table, items[..i], blacklist, items[i]);
        TellOne(discoveries, found, items[..i], items[i]);
        LastWinsStep(table, items[..i], blacklist, items[i]);
        LastFoundStep(found, items[..i], items[i]);
        found := found + map[items[i].1 := items[i].0];
        if items[i].0 !in blacklist {
          AddMemory(items[i].0, items[i].1);
        }
      }
      assert items[..|items|] == items;
    }

    /** The answer of another memory, a whole table, when no id is blocked. */
    method HearFrom(address: Address, memId: uint32, items: seq<Item>, ghost sent: map<uint32, Address>)
      requires memId != id && forall e :: e in SetOf(items) <==> e.0 in sent && sent[e.0] == e.1
      modifies this`table
      ensures table == old(table) + sent
    {
      var _, _ := GossipWith(address, memId, Listed(items), {}, map[]);
      LearntTable(old(table), table, items, sent);
    }

    /** `_addToKnownPeers` over the discoveries of the round. */
    method AddToKnownPeers(found: map<Address, uint32>)
      modifies this`peers
      ensures peers == old(peers) + found
    {
      var todo := found.Keys;
      while todo != {}
        invariant todo <= found.Keys && peers.Keys == old(peers).Keys + (found.Keys - todo)
        invariant forall a :: a in peers ==> peers[a] == if a in found && a !in todo then found[a] else old(peers)[a]
        decreases |todo|
      {
        var a :| a in todo;
        todo := todo - {a};
        if a in peers {
          if peers[a] == found[a] {
            continue;
          }
          peers := peers - {a};
        }
        peers := peers + map[a := found[a]];
      }
    }

    /** `_iterateSuccessfulMemories` on one of the known peers. */
    method AskPeer(a: Address, answers: map<Address, Answer>, blacklist: set<uint32>, discoveries: map<Address, uint32>,
                   ghost before: map<uint32, Address>, ghost asked: set<Address>)
      returns (blocked: set<uint32>, found: map<Address, uint32>)
      requires a in peers && AfterAsking(before, table, discoveries, blacklist, peers, answers, id, asked)
      modifies this`table
      ensures AfterAsking(before, table, found, blocked, peers, answers, id, asked + {a})
    {
      ghost var t := table;
      NothingBlockedIsLearnt(before, table, discoveries, blacklist, peers, answers, id, asked);
      blocked, found := GossipWith(a, peers[a], if a in answers then answers[a] else Silent, blacklist, discoveries);
      RoundContinues(before, t, discoveries, blacklist, peers, answers, id, asked, a, table, found, blocked);
    }

    /**
     `_gossipWorkerTh`: the table learns what all the peers list, except the ids of those that failed,
     and the addresses listed become peers.  Nobody is asked for an address met in the round.
     */
    method GossipRound(answers: map<Address, Answer>) returns (blocked: set<uint32>, ghost known: map<Address, uint32>)
      modifies this`table, this`peers
      ensures Joined(old(peers), known, old(table), old(table).Keys)
      ensures blocked == FailedIds(known, answers, id, known.Keys)
      ensures Learnt(old(table), table, AllItems(known, answers, id, known.Keys), blocked)
      ensures Told(known, peers, AllItems(known, answers, id, known.Keys))
    {
      AddNewGossips();
      known := peers;
      blocked := {};
      var found: map<Address, uint32> := map[];
      var todo := peers.Keys;
      RoundStarts(table, known, answers, id);
      assert known.Keys - todo == {};
      while todo != {}
        invariant todo <= peers.Keys && peers == known
        invariant AfterAsking(old(table), table, found, blocked, known, answers, id, known.Keys - todo)
        decreases |todo|
      {
        var a :| a in todo;
        blocked, found := AskPeer(a, answers, blocked, found, old(table), known.Keys - todo);
        assert known.Keys - (todo - {a}) == known.Keys - todo + {a};
        todo := todo - {a};
      }
      assert known.Keys - todo == known.Keys;
      RoundEnds(old(table), table, found, blocked, known, answers, id, known.Keys - todo);
      AddToKnownPeers(found);
    }
  }

  /** Both sides of a handshake.  The caller sends its table and then takes over the answer, a whole table too. */
  method Exchange(caller: Memory, callerAddress: Address, receiver: Memory, receiverAddress: Address)
    requires caller != receiver && caller.id != receiver.id && receiver.id != 0
    modifies caller`table, receiver`table
    ensures receiver.table ==
            old(receiver.table)[receiver.id := receiverAddress][caller.id := callerAddress] + old(caller.table)
    ensures caller.table == old(caller.table) + receiver.table
  {
    var items := caller.SendTable();
    var reply := receiver.HandleHandshake(receiverAddress, FromMemory(caller.id, callerAddress, items));
    LearntTable(old(receiver.table)[receiver.id := receiverAddress][caller.id := callerAddress], receiver.table, items,
                caller.table);
    caller.HearFrom(receiverAddress, receiver.id, reply.value, receiver.table);
  }

  /** A handshake that nothing disturbs: afterwards both tables list the same memories, as `Known` says. */
  method Shake(caller: Memory, callerAddress: Address, receiver: Memory, receiverAddress: Address,
               ghost hs: seq<Handshake>)
    requires caller != receiver && caller.id != receiver.id && receiver.id != 0
    requires caller.table.Keys == Known(hs, caller.id) && receiver.table.Keys == Known(hs, receiver.id)
    modifies caller`table, receiver`table
    ensures caller.table.Keys == Known(hs + [Handshake(caller.id, receiver.id)], caller.id)
    ensures receiver.table.Keys == Known(hs + [Handshake(caller.id, receiver.id)], receiver.id)
  {
    Exchange(caller, callerAddress, receiver, receiverAddress);
    ghost var after := hs + [Handshake(caller.id, receiver.id)];
    assert after[..|after| - 1] == hs;
  }

  /** Who learns the entries of a table has that table's addresses, and its own for the other ids. */
  lemma LearntTable(before: map<uint32, Address>, after: map<uint32, Address>, items: seq<Item>,
                    sent: map<uint32, Address>)
    requires Learnt(before, after, SetOf(items), {})
    requires forall e :: e in SetOf(items) <==> e.0 in sent && sent[e.0] == e.1
    ensures after == before + sent
  {
    EntriesHaveKeys(items, sent);
    forall m | m in after ensures after[m] == (before + sent)[m] {
      if m in Ids(SetOf(items)) {
        assert (m, after[m]) in SetOf(items);
      }
    }
  }

  lemma EntriesHaveKeys(items: seq<Item>, table: map<uint32, Address>)
    requires forall e :: e in SetOf(items) <==> e.0 in table && table[e.0] == e.1
    ensures Ids(SetOf(items)) == table.Keys
  {
    forall m | m in table ensures m in Ids(SetOf(items)) {
      assert (m, table[m]) in SetOf(items);
    }
  }
}
