# Domino hash: a verified Dafny model

The Domino hash indexes DNA text by k-mers. Each k-mer is turned into a bit
string, two bits per base (A=00, T=01, G=10, C=11), and filed in a chained
table whose slot is the binary value of that bit string. Lookups walk the
chain at the query's slot and report the slot on an exact match, or -1.

The model has three modules:

- `Encoder` (`encoder.dfy`): `binary_to_decimal` and `genome_to_binary`. Each
  has a recursive reference definition (`BinaryValue`, `GenomeBits`) and a
  method that follows the Python loop (`BinaryToDecimal`, `GenomeToBinary`),
  proved equal to it. The decoders `NatToBinary` and `BinaryToGenome` give the
  round trips, and the round trips give injectivity of the k-mer key.
- `Chains` (`chains.dfy`): the collision chain of `HashNode`s as an immutable
  list, `Empty` (Python's `None`) or `Node(key, next)`. `Keys` reads a
  chain as its keys in insertion order. The tail walk of `insert` and the
  match walk of `search` are recursive functions specified through `Keys`.
- `Table` (`table.dfy`): `HashTable` with its constructor, `hash`, `insert`
  and `search` as pure functions from tables to tables. `Contents` reads a
  table as one key sequence per slot. The slot invariant says every stored key
  is a bit string whose value is its slot. `InsertAll` replays a run of
  insertions, and the lemmas about it characterise a table built from nothing.
  Because `Search` is a function of the table, it cannot change the table.

A few behaviours of `domino_hash.py` are worth stating plainly:

- The table stores the bit strings themselves. The slot is the bit string's
  value with no modulo. So different bit strings of equal value, such as "01"
  (from "T") and "0001" (from "AT"), share a slot. `search` tells them apart by
  string equality (`Table.SharedSlotKeptApart`).
- Characters outside A, T, G, C are skipped silently
  (`Encoder.GenomeBitsIgnoresOthers`).
- The table size is never checked; a size of 0 gives a table with no slots.
- An index past the end of the slot list raises IndexError in Python. The model
  makes this a `requires` of `Insert` and `Search`.
- `search` returns the slot index on a match. That index always equals the
  key's value.

## Model

| member | source | states |
|---|---|---|
| Encoder.DigitValue | domino_hash.py:27 | `int(digit)` on a binary digit is 0 or 1, and 1 exactly for '1' |
| Encoder.BinaryValue | domino_hash.py:14-29 | The value of an n-digit binary string, most significant digit first, lies in [0, 2^n) |
| Encoder.BinaryValueAppend | domino_hash.py:24-29 | Horner's rule: appending digit b to s gives twice the value of s plus b |
| Encoder.BinaryRoundTrip | domino_hash.py:14-29 | Writing a digit string's value back out at the string's own width gives the string |
| Encoder.NatRoundTrip | domino_hash.py:14-29 | Any number below 2^n, written as n digits and read back, is unchanged |
| Encoder.BinaryValueInjective | domino_hash.py:14-29 | Two binary strings of equal length with equal value are equal |
| Encoder.BinaryToDecimal | domino_hash.py:24-29 | The Python loop with its counting-down `power` computes the positional value of the digits |
| Encoder.BaseCode | domino_hash.py:112-120 | A character contributes two binary digits if it is A, T, G or C, and none otherwise |
| Encoder.CodeBase | domino_hash.py:102 | Every two-digit code is the code of a base, and of no other base, so the code table A=00, T=01, G=10, C=11 is invertible |
| Encoder.GenomeBits | domino_hash.py:100-122 | The encoding is a binary string whose length is twice the number of alphabet characters in the input |
| Encoder.GenomeBitsConcat | domino_hash.py:111-122 | The encoding of s followed by t is the encoding of s followed by the encoding of t |
| Encoder.GenomeBitsIgnoresOthers | domino_hash.py:112-120 | Dropping every non-alphabet character leaves the encoding unchanged |
| Encoder.GenomeBitsLayout | domino_hash.py:111-122 | For DNA text, digits 2i and 2i+1 of the encoding are the code of base i, in input order |
| Encoder.GenomeBitsSnoc | domino_hash.py:112-120 | Appending one character to the input appends exactly that character's code to the output |
| Encoder.BinaryToGenome | domino_hash.py:102 | Decoding an even-length binary string gives DNA text of half its length |
| Encoder.GenomeRoundTrip | domino_hash.py:100-122 | Decoding the encoding of DNA text gives the text back |
| Encoder.BinaryGenomeRoundTrip | domino_hash.py:100-122 | Every even-length binary string is the encoding of the DNA text it decodes to |
| Encoder.GenomeToBinary | domino_hash.py:100-122 | The Python loop, appending a code per alphabet character and skipping others, computes the encoding |
| Encoder.KmerKey | domino_hash.py:133 | The slot of a window, `hash(genome_to_binary(window))`, is below 4 to the power of the number of alphabet characters in it |
| Encoder.KmerKeyRange | domino_hash.py:100-122 | A DNA k-mer of length L, encoded by `genome_to_binary` and valued by `binary_to_decimal` (lines 14-29), has a key in [0, 4^L) |
| Encoder.KmerKeyInjective | domino_hash.py:100-122 | Distinct DNA k-mers of the same length have distinct keys |
| Encoder.WindowKeyBound | domino_hash.py:100-122 | Text of at most w characters, alphabet or not, has a key below 4^w |
| Encoder.WorkedEncodings | domino_hash.py:111-122 | "AT" encodes as 0001 = 1, "GC" as 1011 = 11, "T" as 01 = 1; a stray character is skipped; the empty string is worth 0 |
| Chains.AppendAtTail | domino_hash.py:64-68 | Walking to the last node and linking a new node there adds the key at the end and keeps the head |
| Chains.InsertIntoChain | domino_hash.py:62-68 | Inserting into an empty or non-empty slot gives the old keys followed by the new key, duplicates included |
| Chains.FindInChain | domino_hash.py:81-86 | The chain walk reports a match exactly when the key occurs in the chain |
| Table.New | domino_hash.py:32-40 | A new table has exactly `size` slots, all empty, and meets the slot invariant |
| Table.Hash | domino_hash.py:42-52 | A key's slot is below 2 to the power of the key's length; the size of the table plays no part |
| Table.Insert | domino_hash.py:54-68 | The key is appended to the chain at its slot and every other slot is unchanged; the slot invariant is preserved |
| Table.Search | domino_hash.py:70-86 | The result is the key's slot exactly when the key occurs in that slot's chain, and -1 exactly when it does not |
| Table.SearchAfterInsert | domino_hash.py:54-86 | After inserting k, searching k gives k's slot, and searching any other key gives what it gave before |
| Table.SearchAfterOneInsert | domino_hash.py:54-86 | A new table given a single key finds that key at its slot and answers -1 for every other key |
| Table.SearchFindsStoredKeys | domino_hash.py:70-86 | Under the slot invariant, any key stored in slot i is a bit string of value i, and searching it gives i |
| Table.InsertAllContents | domino_hash.py:54-68 | After a run of insertions each slot holds its old keys followed by that slot's new keys in insertion order |
| Table.SearchAfterInsertAll | domino_hash.py:54-86 | In a table built from nothing, search finds exactly the inserted keys, and a key's chain holds it once per insertion |
| Table.KeysWithHashCount | domino_hash.py:54-68 | The keys routed to a key's own slot contain it as often as the insertions did |
| Table.ScriptWindowFits | domino_hash.py:98-133 | Any window of at most four characters encodes to a slot of the 256-slot table, so `insert` stays inside it |
| Table.SharedSlotKeptApart | domino_hash.py:80-86 | "01" and "0001" share slot 1; after inserting only "0001", searching "01" still gives -1 |
| Table.WorkedSearchAT | domino_hash.py:70-86 | A 16-slot table holding the bits of "AT" finds them at slot 1 and does not find "0010" |
| Table.WorkedSearchGCAT | domino_hash.py:54-86 | A 256-slot table holding only the bits of "GCAT" does not find the bits of "CTGA" |
| Table.WorkedQueryCTGA | domino_hash.py:124-142 | Whenever the indexed window keys include the bits of "CTGA", as the script's sequence does, searching the query window "CTGA" answers 216 |
| Table.InsertAll | domino_hash.py:127-133 | Inserting a run of window keys keeps the size and the slot list's length, and preserves the slot invariant |
| Table.Contents | domino_hash.py:88-95 | The pure counterpart of `print_table`: one key list per slot, and under the slot invariant every key on line i is a bit string worth i |

## Left out

- `print_table` (domino_hash.py:88-95) writes to the console. `Table.Contents` is its pure counterpart: the keys of every slot in order.
- Most of the module-level script (domino_hash.py:98, 124-142) is left out: the table built at import time, the sequence literals, the slicing of the text into windows and the `print` calls. Its constants are kept (`ScriptTableSize` = 256, `ScriptWindow` = 4), with the lemma that its windows fit the table. The insertion half of the indexing loop is `Table.InsertAll`, applied to a given list of window keys.
- Table.New: a negative size gives an empty slot list with a negative `size` in the Python (`[None] * -3` is `[]`), after which every `insert` and `search` raises IndexError; the model's size is a `nat` because the only caller passes 256.
- Object identity and the mutable `next` links of `HashNode` (domino_hash.py:3-12, 63-68) are modelled as immutable values. Chains are never shared, so nothing observable is lost.
- `int(digit)` (domino_hash.py:27) raises on most other characters, reads other decimal digits such as '2' as their value, and reads non-ASCII zero and one digits such as '１' as 0 and 1; keys are restricted to the ASCII digits '0' and '1' by `requires`, and `genome_to_binary` only produces such strings.
- The IndexError of `self.table[index]` for an index past the end (domino_hash.py:62, 81) is a `requires` of `Insert` and `Search`, not an error value. Negative indices cannot arise, because a binary value is never negative.
- Python's arbitrary-precision integers need no width: Dafny's `nat` matches them.
