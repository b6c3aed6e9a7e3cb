/**
 The chained direct-address table of the Domino hash.

 A table has a fixed number of slots, each holding a collision chain. The keys
 stored are the bit strings produced by the encoder themselves; the slot of a
 key is its binary value, with no reduction modulo the size. `insert` appends
 to the chain at that slot without removing duplicates; `search` walks the
 same chain and answers the slot index on an exact string match, -1 otherwise.
 Two different bit strings with the same value (such as "01" and "0001") share
 a slot and are told apart by string equality.

 The table is an immutable value and the operations are functions from tables
 to tables. `Contents` reads a table as one sequence of keys per slot.
 */
module Table {
  import opened Encoder
  import opened Chains

  /** `size` as passed to the constructor, and the list of slots. */
  datatype HashTable = HashTable(size: nat, table: seq<Chain>)

  /**
   The keys of every slot, slot by slot, each in insertion order: what
   `print_table` prints, one line per slot. Under the slot invariant every key
   listed on line i is a bit string worth i.
   */
  function Contents(t: HashTable): (c: seq<seq<string>>)
    ensures |c| == |t.table|
    ensures SlotInvariant(t) ==>
      forall i, k :: 0 <= i < |c| && k in c[i] ==> IsBitString(k) && BinaryValue(k) == i
  {
    seq(|t.table|, i requires 0 <= i < |t.table| => Keys(t.table[i]))
  }

  /** The slot list has the length the table was built with. */
  predicate WellSized(t: HashTable) {
    |t.table| == t.size
  }

  /** Every key sits in the slot its value names, and is a bit string. */
  predicate SlotInvariant(t: HashTable) {
    forall i, k :: 0 <= i < |t.table| && k in Keys(t.table[i]) ==> IsBitString(k) && BinaryValue(k) == i
  }

  /** The constructor: `size` slots, all `None`. */
  function New(size: nat): (t: HashTable)
    ensures t.size == size && WellSized(t)
    ensures forall i :: 0 <= i < size ==> Contents(t)[i] == []
    ensures SlotInvariant(t)
  {
    HashTable(size, seq(size, _ => Empty))
  }

  /** `hash`: a key's slot is its binary value, so it is below 2^|key|. */
  function Hash(key: string): (index: nat)
    requires IsBitString(key)
    ensures index < Pow2(|key|)
  {
    BinaryValue(key)
  }

  /**
   `insert`: the key goes to the end of the chain at its slot; every other
   slot is left as it was. The index must be inside the slot list (`domino_hash.py`
   raises IndexError otherwise) and the key must consist of binary digits
   (ASCII '0' and '1' only).
   */
  function Insert(t: HashTable, key: string): (t': HashTable)
    requires IsBitString(key)
    requires Hash(key) < |t.table|
    ensures t'.size == t.size && |t'.table| == |t.table|
    ensures Contents(t') == Contents(t)[Hash(key) := Contents(t)[Hash(key)] + [key]]
    ensures SlotInvariant(t) ==> SlotInvariant(t')
  {
    var index := Hash(key);
    var t' := t.(table := t.table[index := InsertIntoChain(t.table[index], key)]);
    assert forall i :: 0 <= i < |t.table| && i != index ==> t'.table[i] == t.table[i];
    t'
  }

  /**
   `search`: the key's slot index when the chain at that slot holds a key equal
   to it as a string, and -1 otherwise. The table is not changed.
   */
  function Search(t: HashTable, key: string): (r: int)
    requires IsBitString(key)
    requires Hash(key) < |t.table|
    ensures r == Hash(key) <==> key in Contents(t)[Hash(key)]
    ensures r == -1 <==> key !in Contents(t)[Hash(key)]
  {
    var index := Hash(key);
    if FindInChain(t.table[index], key) then index else -1
  }

  /** Searching right after inserting a key finds it; other keys answer as before. */
  lemma SearchAfterInsert(t: HashTable, key: string, query: string)
    requires IsBitString(key) && Hash(key) < |t.table|
    requires IsBitString(query) && Hash(query) < |t.table|
    ensures Search(Insert(t, key), query) == (if query == key then Hash(key) else Search(t, query))
  {
    var t' := Insert(t, key);
    if Hash(query) == Hash(key) {
      assert Contents(t')[Hash(query)] == Contents(t)[Hash(query)] + [key];
    }
  }

  /** A fresh table given one key finds that key and nothing else. */
  lemma SearchAfterOneInsert(size: nat, key: string, query: string)
    requires IsBitString(key) && Hash(key) < size
    requires IsBitString(query) && Hash(query) < size
    ensures Search(Insert(New(size), key), query) == (if query == key then Hash(key) else -1)
  {
    SearchAfterInsert(New(size), key, query);
  }

  /** Under the slot invariant, a key found anywhere is found by `search`. */
  lemma SearchFindsStoredKeys(t: HashTable, i: nat, key: string)
    requires SlotInvariant(t)
    requires i < |t.table| && key in Contents(t)[i]
    ensures IsBitString(key) && Hash(key) == i
    ensures Search(t, key) == i
  {
    assert key in Keys(t.table[i]);
  }

  // ---------------------------------------------------------------------------
  // A run of insertions
  // ---------------------------------------------------------------------------

  predicate AllBitStrings(keys: seq<string>) {
    forall j :: 0 <= j < |keys| ==> IsBitString(keys[j])
  }

  /** Every key is a bit string whose slot exists in a table of `slots` slots. */
  predicate KeysFit(keys: seq<string>, slots: nat) {
    forall j :: 0 <= j < |keys| ==> IsBitString(keys[j]) && Hash(keys[j]) < slots
  }

  /** The keys, in order, whose slot is `i`. */
  function KeysWithHash(keys: seq<string>, i: nat): (r: seq<string>)
    requires AllBitStrings(keys)
    ensures forall j :: 0 <= j < |r| ==> IsBitString(r[j]) && Hash(r[j]) == i
    ensures multiset(r) <= multiset(keys)
  {
    if |keys| == 0 then []
    else
      assert keys == [keys[0]] + keys[1..];
      if Hash(keys[0]) == i then [keys[0]] + KeysWithHash(keys[1..], i)
      else KeysWithHash(keys[1..], i)
  }

  /** A key is filtered into its own slot as often as it occurs. */
  lemma {:induction false} KeysWithHashCount(keys: seq<string>, key: string)
    requires AllBitStrings(keys) && IsBitString(key)
    ensures multiset(KeysWithHash(keys, Hash(key)))[key] == multiset(keys)[key]
  {
    if |keys| > 0 {
      KeysWithHashCount(keys[1..], key);
      assert keys == [keys[0]] + keys[1..];
    }
  }

  /** `insert` applied to each key in turn, as the indexing loop does with the key of each window. */
  function InsertAll(t: HashTable, keys: seq<string>): (t': HashTable)
    requires KeysFit(keys, |t.table|)
    ensures t'.size == t.size && |t'.table| == |t.table|
    ensures SlotInvariant(t) ==> SlotInvariant(t')
    decreases |keys|
  {
    if |keys| == 0 then t else InsertAll(Insert(t, keys[0]), keys[1..])
  }

  /** After a run of insertions each slot holds its old keys followed by the new keys of that slot. */
  lemma {:induction false} InsertAllContents(t: HashTable, keys: seq<string>, i: nat)
    requires KeysFit(keys, |t.table|)
    requires i < |t.table|
    ensures Contents(InsertAll(t, keys))[i] == Contents(t)[i] + KeysWithHash(keys, i)
    decreases |keys|
  {
    if |keys| > 0 {
      var k := keys[0];
      var t1 := Insert(t, k);
      assert KeysFit(keys[1..], |t1.table|);
      InsertAllContents(t1, keys[1..], i);
      assert InsertAll(t, keys) == InsertAll(t1, keys[1..]);
      if Hash(k) == i {
        assert KeysWithHash(keys, i) == [k] + KeysWithHash(keys[1..], i);
        assert Contents(t1)[i] == Contents(t)[i] + [k];
      } else {
        assert KeysWithHash(keys, i) == KeysWithHash(keys[1..], i);
        assert Contents(t1)[i] == Contents(t)[i];
      }
    }
  }

  /**
   On a table built from nothing by a run of insertions, `search` finds exactly
   the keys that were inserted, and the chain at a key's slot holds that key
   once per insertion.
   */
  lemma {:induction false} SearchAfterInsertAll(size: nat, keys: seq<string>, query: string)
    requires KeysFit(keys, size)
    requires IsBitString(query) && Hash(query) < size
    ensures Search(InsertAll(New(size), keys), query) == (if query in keys then Hash(query) else -1)
    ensures multiset(Contents(InsertAll(New(size), keys))[Hash(query)])[query] == multiset(keys)[query]
  {
    var t := InsertAll(New(size), keys);
    InsertAllContents(New(size), keys, Hash(query));
    assert Contents(t)[Hash(query)] == KeysWithHash(keys, Hash(query));
    KeysWithHashCount(keys, query);
  }

  // ---------------------------------------------------------------------------
  // The sizes the indexing script uses, and worked examples
  // ---------------------------------------------------------------------------

  /** The table size and window length of the indexing script. */
  const ScriptTableSize: nat := 256
  const ScriptWindow: nat := 4

  /** Any window of at most four characters encodes to a slot of the 256-slot table. */
  lemma {:induction false} ScriptWindowFits(window: string)
    requires |window| <= ScriptWindow
    ensures IsBitString(GenomeBits(window))
    ensures Hash(GenomeBits(window)) < ScriptTableSize
  {
    WindowKeyBound(window, ScriptWindow);
  }

  /**
   "T" and "AT" both land in slot 1 but are different keys: after inserting
   only the bits of "AT", searching the bits of "T" answers -1.
   */
  lemma SharedSlotKeptApart()
    ensures Hash("01") == Hash("0001") == 1
    ensures Search(Insert(New(ScriptTableSize), "0001"), "0001") == 1
    ensures Search(Insert(New(ScriptTableSize), "0001"), "01") == -1
  {
    WorkedEncodings();
    SearchAfterInsert(New(ScriptTableSize), "0001", "01");
    SearchAfterInsert(New(ScriptTableSize), "0001", "0001");
  }

  /**
   A 16-slot table holding the bits of "AT" finds them at slot 1 and does not
   find the bits "0010" of slot 2.
   */
  lemma WorkedSearchAT()
    ensures Search(Insert(New(16), GenomeBits("AT")), GenomeBits("AT")) == 1
    ensures Search(Insert(New(16), GenomeBits("AT")), "0010") == -1
  {
    assert GenomeBits("AT") == "0001";
    WorkedSearchBits();
  }

  /** `WorkedSearchAT` stated on the bit strings themselves. */
  lemma WorkedSearchBits()
    ensures Search(Insert(New(16), "0001"), "0001") == 1
    ensures Search(Insert(New(16), "0001"), "0010") == -1
  {
    assert BinaryValue("0001") == 1;
    assert BinaryValue("0010") == 2;
    SearchAfterInsert(New(16), "0001", "0001");
    SearchAfterInsert(New(16), "0001", "0010");
  }

  /** A 256-slot table holding only the bits of "GCAT" does not find the bits of "CTGA". */
  lemma WorkedSearchGCAT()
    ensures Search(Insert(New(ScriptTableSize), GenomeBits("GCAT")), GenomeBits("CTGA")) == -1
  {
    var gcat, ctga := GenomeBits("GCAT"), GenomeBits("CTGA");
    assert gcat == "10110001";
    assert ctga == "11011000";
    assert gcat != ctga by { assert gcat[1] != ctga[1]; }
    ScriptWindowFits("GCAT");
    ScriptWindowFits("CTGA");
    SearchAfterOneInsert(ScriptTableSize, gcat, ctga);
  }

  /**
   The script's query: whenever the indexed window keys include the bits of
   "CTGA" (the sequence it indexes has that window), searching the first query
   window "CTGA" answers slot 216.
   */
  lemma WorkedQueryCTGA(keys: seq<string>)
    requires KeysFit(keys, ScriptTableSize)
    requires GenomeBits("CTGA") in keys
    ensures Search(InsertAll(New(ScriptTableSize), keys), GenomeBits("CTGA")) == 216
  {
    var ctga := GenomeBits("CTGA");
    assert ctga == "11011000";
    assert BinaryValue(ctga) == 216;
    SearchAfterInsertAll(ScriptTableSize, keys, ctga);
  }
}
