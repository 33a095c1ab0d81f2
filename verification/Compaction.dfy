/**
 The dictionaries of a compaction: one map per partition, filled line by line from the files'
 text, and written back as the new contents of the partitions.
 */
module Compaction {
  import opened Basics
  import opened Records
  import opened Codec
  import opened Engine

  type Dictionaries = seq<map<uint16, Record>>

  /** The dictionaries hold, for every key, what a scan of all the records merged so far would find. */
  ghost predicate Agree(dicts: Dictionaries, read: seq<Record>) {
    && |dicts| > 0
    && (forall i, k :: 0 <= i < |dicts| && k in dicts[i] ==> k % |dicts| == i && dicts[i][k].key == k)
    && (forall k: uint16 :: Scan(read, k) == Lookup(dicts[k % |dicts|], k))
  }

  function Lookup(dict: map<uint16, Record>, k: uint16): Option<Record> {
    if k in dict then Some(dict[k]) else None
  }

  function Put(dict: map<uint16, Record>, r: Record): map<uint16, Record> {
    dict + map[r.key := r]
  }

  /** One line merged: kept when its key is new or it is strictly newer than the entry. */
  function Merged(dicts: Dictionaries, r: Record): Dictionaries
    requires |dicts| > 0
  {
    var p := r.key % |dicts|;
    if r.key !in dicts[p] || dicts[p][r.key].timestamp < r.timestamp then dicts[p := Put(dicts[p], r)] else dicts
  }

  lemma MergedAgrees(dicts: Dictionaries, read: seq<Record>, r: Record)
    requires Agree(dicts, read)
    ensures Agree(Merged(dicts, r), read + [r])
  {
    var longer := read + [r];
    assert longer[..|longer| - 1] == read;
    assert Scan(read, r.key) == Lookup(dicts[r.key % |dicts|], r.key);
    forall k: uint16 ensures Scan(longer, k) == Lookup(Merged(dicts, r)[k % |dicts|], k) {
      assert Scan(read, k) == Lookup(dicts[k % |dicts|], k);
    }
  }

  function NoDictionaries(partitions: nat): Dictionaries {
    seq(partitions, _ => map[])
  }

  lemma EmptyAgrees(partitions: nat)
    requires partitions > 0
    ensures Agree(NoDictionaries(partitions), [])
  {
  }

  /** `_escribirDiccionario`: merges the lines of a file's contents into the dictionaries. */
  method MergeContents(contents: Text, before: Dictionaries, ghost read: seq<Record>) returns (dicts: Dictionaries)
    requires Agree(before, read) && Parse(contents).Some?
    ensures |dicts| == |before| && Agree(dicts, read + Parse(contents).value)
  {
    dicts := before;
    var lines := StringSplit(contents, NEWLINE);
    ghost var parsed := [];
    assert read + [] == read;
    for i := 0 to |lines|
      invariant ParseLines(lines[..i]) == Some(parsed)
      invariant |dicts| == |before| && Agree(dicts, read + parsed)
    {
      PrefixParses(lines, i + 1);
      assert lines[..i + 1][..i] == lines[..i];
      var fields := StringSplit(lines[i], SEMICOLON);
      var timestamp := TimestampField(fields[0]);
      var key := ValidateKey(fields[1]);
      if key.None? {
        continue;
      }
      var r := Record(timestamp, key.value, fields[2]);
      ghost var was := dicts;
      var p := r.key % |dicts|;
      if r.key !in dicts[p] {
        dicts := dicts[p := Put(dicts[p], r)];
      } else if dicts[p][r.key].timestamp < timestamp {
        dicts := dicts[p := Put(dicts[p], r)];
      }
      assert dicts == Merged(was, r);
      MergedAgrees(was, read + parsed, r);
      assert read + parsed + [r] == read + (parsed + [r]);
      parsed := parsed + [r];
    }
    assert lines[..|lines|] == lines;
  }

  /** `_guardarRegistroDiccionario` over one dictionary: its entries as lines, in whatever order they come. */
  method RenderDictionary(dicts: Dictionaries, i: nat, ghost read: seq<Record>)
    returns (content: Text, ghost output: seq<Record>)
    requires Agree(dicts, read) && i < |dicts|
    ensures content == Render(output) && Lists(output, read, i, |dicts|)
  {
    content, output := [], [];
    var todo := dicts[i].Keys;
    while todo != {}
      invariant todo <= dicts[i].Keys && content == Render(output)
      invariant forall k :: k in dicts[i].Keys - todo ==> dicts[i][k] in output
      invariant forall r :: r in output ==> r.key in dicts[i].Keys - todo && dicts[i][r.key] == r
      invariant forall a, b :: 0 <= a < b < |output| ==> output[a].key != output[b].key
      decreases |todo|
    {
      var k :| k in todo;
      var r := dicts[i][k];
      EntryHasItsKey(dicts, read, i, k);
      assert (output + [r])[..|output|] == output;
      content := content + LineOf(Record(r.timestamp, k, r.value)) + [NEWLINE];
      assert forall a :: 0 <= a < |output| ==> output[a] in output;
      output := output + [r];
      todo := todo - {k};
    }
    EntriesAreListed(dicts, read, i, output);
  }

  lemma EntryHasItsKey(dicts: Dictionaries, read: seq<Record>, i: nat, k: uint16)
    requires Agree(dicts, read) && i < |dicts| && k in dicts[i]
    ensures k % |dicts| == i && Scan(read, k) == Some(dicts[i][k]) && dicts[i][k].key == k
  {
  }

  lemma EntriesAreListed(dicts: Dictionaries, read: seq<Record>, i: nat, output: seq<Record>)
    requires Agree(dicts, read) && i < |dicts|
    requires forall k :: k in dicts[i] ==> dicts[i][k] in output
    requires forall r :: r in output ==> r.key in dicts[i] && dicts[i][r.key] == r
    requires forall a, b :: 0 <= a < b < |output| ==> output[a].key != output[b].key
    ensures Lists(output, read, i, |dicts|)
  {
  }
}
