# Car-record hash tables: a Dafny model

The program indexes car records by their identifier string in one of two
fixed-size hash tables of `TABLE_SIZE = 142889` positions that share one
polynomial string hash:

- **linear probing** (`linearHashTable`): an array of slots `{key, value, occupied}`;
  insertion scans forward cyclically from the key's hash to the first free slot,
  search probes forward from the hash until it finds the key, meets a free slot or
  comes back to where it started;
- **separate chaining** (`chainHashTable`): an array of insertion-ordered lists;
  insertion appends to the key's bucket, search returns the first entry with the key.

Records reach the tables from a CSV reader whose per-line tokeniser (split on
commas as `getline` does, strip double quotes, keep a line only with exactly 18
columns) is modelled too.

Layout, one module per component:

- `wrappers.dfy` — `Wrappers.Option`, the found / not-found (null pointer) result.
- `hashing.dfy` — `Hashing`: keys as byte strings (`Char` is a signed `char`,
  -128..127), the hash as written (`HashAsWritten`), the hash with the byte read
  unsigned (`Hash`), and the accumulator loop `HashFunction`.
- `linear_probing.dfy` — `LinearProbing`: slot datatype, specification functions
  over a table snapshot (`seq<Slot<V>>`), the probe-chain invariant, lemmas, and the
  class `LinearTable` over an `array<Slot<V>>` whose `Insert` and `Search` are the
  source's loops.
- `chaining.dfy` — `Chaining`: entries, buckets as `seq<Entry<V>>`, specification
  functions and lemmas, and the class `ChainTable` over an `array<seq<Entry<V>>>`.
- `csv_line.dfy` — `CsvLine`: `getline` splitting, quote stripping, the 18-column
  check and the hybrid flag, with the tokenising loop `Tokenize`.

The record type (`Car`) is a type parameter `V` of both tables: records are
copied in as opaque values.  Both tables are process-wide and never cleared, so
every lemma about an operation starts from any table satisfying the invariant,
not only from the empty table.

Two behaviours of the code worth noting:

- the search compares the key of the first probed slot whatever its occupied
  flag, so searching the empty key while slot 0 is free returns that default
  slot (`EmptyKeyFindsDefaultSlot`);
- the hash accumulator stays strictly inside (-TABLE_SIZE, TABLE_SIZE), so
  `hash * 31 + c` cannot overflow an int; signed `char` bytes can make it
  negative (see Findings).

## Model

| member | source | states |
|---|---|---|
| `Hashing.TruncRem` | main.cpp:72 | C++ `%` with a positive modulus: a minus the result is n times the quotient truncated toward zero; the result is in [0, n) for non-negative operands and in (-n, 0] for negative ones |
| `Hashing.HashAsWritten` | main.cpp:67-75 | the hash exactly as written (signed bytes, truncating `%`) always lies strictly between -TABLE_SIZE and TABLE_SIZE, and is non-negative on ASCII keys |
| `Hashing.NonAsciiKeyHashesNegative` | main.cpp:70-72 | the UTF-8 bytes of "é" hash, as written, to -1978, a negative array index |
| `Hashing.Code` | main.cpp:70 | the byte read as `unsigned char`: a value in [0, 256), equal to the byte itself when it is non-negative |
| `Hashing.Hash` | main.cpp:67-75 | the hash with bytes read unsigned is always a valid index in [0, TABLE_SIZE) |
| `Hashing.HashSteps` | main.cpp:68-73 | the empty key hashes to 0; appending byte c maps hash h to (h*31 + c) mod TABLE_SIZE |
| `Hashing.HashAgreesOnAscii` | main.cpp:67-75 | on keys whose bytes are all below 0x80 the corrected hash equals the hash as written |
| `Hashing.HashFunction` | main.cpp:67-75 | the accumulator loop returns exactly the recursive hash of the whole key, a valid index |
| `LinearProbing.Next` | main.cpp:83 | `(index + 1) % TABLE_SIZE` is the next slot, wrapping to 0, i.e. one more step along any probe sequence |
| `LinearProbing.Dist` | main.cpp:82-84 | every slot is reached from any start after fewer than TABLE_SIZE forward steps |
| `LinearProbing.FreeDist` | main.cpp:82-84 | the scan from the hash stops at the first free slot: it is free and every slot passed is occupied |
| `LinearProbing.FreeAhead` | main.cpp:82-84 | when some slot is free, the forward scan from any slot reaches a free slot within TABLE_SIZE steps (the insert loop terminates) |
| `LinearProbing.InsertSlot` | main.cpp:80-84 | the slot written by insertion is free and all slots from the key's hash up to it are occupied |
| `LinearProbing.Inserted` | main.cpp:78-90 | the table after insertion: the slot `InsertSlot` holds (key, value, occupied) and every other slot is as before |
| `LinearProbing.FreeIffNotFull` | main.cpp:82-84 | a free slot exists exactly when the occupied count is below the capacity |
| `LinearProbing.OccupyCounts` | main.cpp:86-89 | marking one free slot occupied raises the occupied count by exactly one |
| `LinearProbing.InsertWritesOneFreeSlot` | main.cpp:78-90 | insertion writes (key, value, occupied) into that free slot, leaves every other slot unchanged and raises the occupied count by one |
| `LinearProbing.InsertKeepsGood` | main.cpp:78-90 | insertion preserves the probe-chain invariant (every occupied slot is reachable from its key's hash through occupied slots) and "free slots hold the empty key" |
| `LinearProbing.Probe` | main.cpp:101-110 | a slot returned by the probe is in range and holds the searched key |
| `LinearProbing.SearchSlot` | main.cpp:94-113 | a slot returned by search is in range and holds the searched key |
| `LinearProbing.ProbeFindsInRun` | main.cpp:101-110 | a probe inside an occupied run that ends at a slot holding the key finds a slot |
| `LinearProbing.SearchFindsIffStored` | main.cpp:94-113 | under the invariant a non-empty key is found iff some occupied slot holds it, and the slot found is occupied; otherwise search returns null |
| `LinearProbing.EmptyKeyFindsDefaultSlot` | main.cpp:101-106 | searching "" while slot 0 is free returns the default slot 0, since the first probe ignores the occupied flag |
| `LinearProbing.InsertThenSearch` | main.cpp:78-113 | after inserting a key into any valid table with a free slot, searching it finds a slot holding it |
| `LinearProbing.InsertThenSearchReturnsValue` | main.cpp:78-113 | after inserting a non-empty key no occupied slot held, search returns exactly the slot just written, whose record is the inserted value |
| `LinearProbing.ProbeIgnoresFreeSlot` | main.cpp:101-110 | filling a free slot other than the first one probed does not change a successful probe |
| `LinearProbing.InsertKeepsEarlierMatch` | main.cpp:78-113 | insertion never changes which slot a stored key is found in; a later duplicate of the key is never returned |
| `LinearProbing.AbsentStaysAbsent` | main.cpp:94-113 | a non-empty key held by no occupied slot is not found, before and after inserting another key |
| `LinearProbing.CollidingKeysScenario` | main.cpp:78-113 | "Ab" and "BC" collide at 2113: inserted in order they take slots 2113 and 2114 and each search finds its own slot |
| `LinearProbing.NoneOccupied` | main.cpp:40-50 | a table of default slots has occupied count zero |
| `LinearProbing.LinearTable.constructor` | main.cpp:40-50 | all TABLE_SIZE slots are default (unoccupied, empty key), the invariant holds, nothing is occupied |
| `LinearProbing.LinearTable.Insert` | main.cpp:78-90 | given a free slot, the new array is the specification `Inserted` of the old one, the invariant is kept and the occupied count grows by one |
| `LinearProbing.LinearTable.Search` | main.cpp:94-113 | the do-while probe returns exactly `SearchSlot` of the current table and changes nothing |
| `Chaining.FirstMatch` | main.cpp:133-139 | the position returned holds the key and no earlier entry does; none is returned exactly when no entry holds the key |
| `Chaining.Lookup` | main.cpp:129-142 | search returns a record only if bucket hash(key) holds an entry (key, record); it returns null exactly when no entry of that bucket has the key |
| `Chaining.Appended` | main.cpp:117-126 | the table after insertion: bucket hash(key) with (key, value) appended, all buckets kept |
| `Chaining.AppendTouchesOneBucket` | main.cpp:117-126 | insertion appends the entry at the end of bucket hash(key), keeping its earlier entries, and leaves every other bucket unchanged |
| `Chaining.AppendKeepsHashed` | main.cpp:117-126 | insertion keeps every entry of bucket i with a key hashing to i |
| `Chaining.LookupFindsIffStored` | main.cpp:129-142 | under the invariant a key is found iff some bucket holds an entry with it |
| `Chaining.FirstMatchAppend` | main.cpp:133-139 | after appending, the first match in a bucket is the old first match if any, else the new entry if its key matches |
| `Chaining.AppendThenLookup` | main.cpp:117-142 | after inserting (key, value), search for key returns the earlier record if there was one, else value; other keys' results are unchanged |
| `Chaining.DuplicateKeepsFirst` | main.cpp:117-142 | inserting the same new key twice, search returns the first-inserted record |
| `Chaining.CollidingKeysScenario` | main.cpp:117-142 | "Ab" and "BC" share bucket 2113 in insertion order, each search finds its record, and "Z" in an empty bucket is not found |
| `Chaining.ChainTable.constructor` | main.cpp:54-63 | all TABLE_SIZE buckets are empty and the invariant holds |
| `Chaining.ChainTable.Insert` | main.cpp:117-126 | the new bucket array is the old one with (key, value) appended to bucket hash(key), and the invariant is kept |
| `Chaining.ChainTable.Search` | main.cpp:129-142 | the scan of the key's bucket returns exactly the first matching record and changes nothing |
| `CsvLine.IndexOf` | main.cpp:177 | `find_first_of`: the position returned holds the byte and no earlier one does; the length stands for npos |
| `CsvLine.LastIndexOf` | main.cpp:178 | `find_last_of`: the position returned holds the byte and no later one does; -1 stands for npos |
| `CsvLine.Split` | main.cpp:174 | the `getline` tokens between commas; the line yields no token exactly when it is empty |
| `CsvLine.SplitTokensHaveNoComma` | main.cpp:174 | no token produced by the comma split contains a comma |
| `CsvLine.SplitAtComma` | main.cpp:174 | the first token runs up to the first comma and the rest of the line is split after it |
| `CsvLine.SplitNoComma` | main.cpp:174 | a line without comma yields no token when empty and itself as the single token otherwise |
| `CsvLine.SplitJoin` | main.cpp:174 | comma-free tokens joined with commas split back into the same tokens when the last one is non-empty |
| `CsvLine.JoinSplit` | main.cpp:174 | joining the tokens gives the line back, except that a trailing comma is dropped |
| `CsvLine.SplitCount` | main.cpp:174-186 | the number of tokens is the number of commas, plus one unless the line is empty or ends with a comma |
| `CsvLine.Tokens` | main.cpp:174-186 | one column per token: column i is token i with its quotes stripped |
| `CsvLine.StripQuotes` | main.cpp:177-185 | the kept text is never longer than the token, and a token without quotes is kept as it is |
| `CsvLine.Row` | main.cpp:191-193 | a line gives its columns exactly when it splits into 18 tokens, and is skipped otherwise |
| `CsvLine.Hybrid` | main.cpp:203 | the hybrid flag of a row: its column 5 is exactly "True" |
| `CsvLine.RowAcceptedIff` | main.cpp:191-193 | a line is kept iff it has 17 commas and no trailing comma, or 18 commas with a trailing one; a kept row has 18 columns |
| `CsvLine.StripWrapped` | main.cpp:177-181 | a token wrapped in quotes comes back unchanged, inner quotes included |
| `CsvLine.StripUnquoted` | main.cpp:177-185 | a token without quotes is kept as it is |
| `CsvLine.StripLoneQuote` | main.cpp:177-181 | with exactly one quote, the kept text is everything after it (the size_t wrap-around of `end - start - 1`) |
| `CsvLine.StripBetweenQuotes` | main.cpp:177-181 | with two or more quotes, the kept text is exactly what lies strictly between the first and last quote |
| `CsvLine.HybridColumn` | main.cpp:203 | the hybrid flag is set exactly by the column text "True", quoted or not in the file, and not by "true" |
| `CsvLine.Tokenize` | main.cpp:166-186 | the tokenising loop returns exactly the stripped `getline` tokens of the line, in order |
| `CsvLine.ReadRow` | main.cpp:166-193 | the loop plus the column check returns the columns exactly when there are 18 of them, and skips the line otherwise |

## Left out

- File opening and line reading, the header skip, `std::cerr`/`std::cout` output, the interactive menu loop of `main` and the 18-field display block: input/output and user interface.
- The `std::stoi` conversion of the numeric columns, its `invalid_argument` catch (and the uncaught `out_of_range`), and so the building of a `Car` from a row and its insertion under `columns[12]`: a library call whose locale and whitespace behaviour is not part of this model. Records are an opaque type parameter.
- `LinearProbing.LinearTable.Insert`: requires a free slot; with the table full the source's scan never ends, and that non-termination is not modelled.
- `LinearProbing.LinearTable.Insert`, `LinearProbing.LinearTable.Search`, `Chaining.ChainTable.Insert`, `Chaining.ChainTable.Search`: index with the hash whose bytes are read unsigned (see Findings); on ASCII keys this is the hash as written (`HashAgreesOnAscii`).
- The static allocation of both 142889-element arrays at start-up: each table is a class instance whose constructor allocates its array.
- `std::list` node identity and the pointer returned by the searches: the linear search returns the slot index and the chaining search the record value.

## Findings

| source | as written | input that shows it | evidently intended | confidence | as-written member | corrected member |
|---|---|---|---|---|---|---|
| main.cpp:70-72 | each byte is added as a plain `char`, signed on x86 compilers, and `%` truncates toward zero, so the hash can be negative and is then used as an index into `linearHashTable` / `chainHashTable` | key "é" (bytes 0xC3 0xA9) hashes to -1978 | an index in [0, TABLE_SIZE), with each byte read as `unsigned char` | not executed; depends on `char` being signed | `Hashing.NonAsciiKeyHashesNegative` | `Hashing.HashFunction` |
