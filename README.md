# TSE retrieval core in Dafny

This project models the retrieval core of the Tiny Search Engine (TSE), a C
search engine built on the CS50 `libcs50` containers:

- the containers the index is built from:
  - `set` is an unbalanced binary search tree over strcmp-ordered string keys;
  - `counters` is a binary search tree from non-negative document ids to counts;
  - `hashtable` is an array of sets indexed by a hash of the key;
- the index (`common/index.c`): a hashtable from words to counters, its
  update operations, and the save / reconstruct file format;
- the indexer's `indexPage` and the docID loop of `indexBuild`
  (`indexer/indexer.c`);
- the querier:
  - the query tokenizer and syntax checker (`common/word.c`);
  - the score accumulator (`common/union.c`);
  - `conjunctAndSequence` / `disjunctOrSequence` and the per-line body of
    `main` (`querier/querier.c`);
  - the ranked scoreboard (`common/scoreboard.c`).

The code's own structure decides the Dafny form. Each linked structure the
C code mutates is a class: `SetEntry` / `StringSet`, `Entry` / `Counters`,
`Hashtable`, `Index` and `Union`. Each keeps a ghost footprint (`Repr`),
and a `Valid()` predicate ties its objects to an abstract value:

- a ghost `map<string, V>` (`Contents`) for a set or hashtable;
- a ghost `map<int, int>` (`Contents`) for a counters;
- a ghost `map<string, map<int, int>>` (`Words`) for the index;
- for a union, the `Contents` of the counters it holds.

The two tree classes, `Entry` (counters) and `SetEntry` (set), also keep a
ghost datatype mirror `T` of their subtree, whose map is the entry's
abstract value, and an `Ordered` predicate on it states the BST invariant. `Scoreboard` is a class over an array of
optional entries with its `size` and `place` fields; it keeps no ghost
state, and its `Valid()` reads the array itself: the first `size` slots
sorted highest first, then at least one NULL.

Each loop of the source is a `while`/`for` loop with its invariants. Three kinds of operation are specified by pure functions:

- the meaning of a query (`Queries.AndScore`, `Queries.Split`, `Queries.OrScore`);
- the index file (`Index.SaveLines`, `Index.Parse`);
- indexing (`Indexer.AddPage`, `Indexer.BuiltFrom`).

The methods are proved against those functions, and the properties (score
algebra, operator precedence, the save→reconstruct round trip, sorted-and-
permuted ranking) are proved about the functions as lemmas.

Modelling conventions:

- Callbacks (`*_iterate` with an `itemfunc`) are defunctionalised. The
  iterate operation returns the sequence of (key, item) pairs the callback
  would receive, in order, and the caller loops over it.
- `hash_jenkins` is a parameter `hash: HashFn`: any function that maps
  every key into `[0, n)` for `n > 0`.
- `index_save` writes a sequence of lines, each ended by a newline;
  `index_reconstruct` reads a file's text. `file_numLines` (libcs50's
  `file.c`, which is not part of this model) counts the newline characters
  of the text, so a last line without a newline is not counted.
- `fscanf` sees the whitespace-separated tokens of the text. `%s` reads one
  token. `%d` reads the longest prefix of a token made of an optional sign
  and digits (section 7.21.6.2 of ISO C11): a read may stop inside a token
  and leave the rest for the next read, and a sign without digits is
  consumed by the read that fails on it.
- The save→reconstruct round trip is proved for words that start with
  neither a digit nor a sign, which is what the indexer stores (lower-case
  letters). A word such as `2abc` saved after another word's pairs is read
  back as the pair's continuation: `Index.DigitLedWord` shows the index
  that results.
- `pagedir_load` is a map from document id to the words of that page.
  `pagedir_getURL` is a function `url` from id to string.
- What would be printed is returned as a value (`Report`, `Outcome`).

Two behaviours of the code the model keeps:

- `qsort` leaves entries with equal scores in no particular order, and
  `sortFunc` has no tie-break, so the ranking promises only that scores do
  not increase along it.
- `main` skips a query with no words: nothing is printed for it, not even
  the "No matches found" of an empty scoreboard.

## Model

| member | source | states |
|---|---|---|
| Text.Lower | C/common/word.c:18-33 | the result has the input's length and each character is `tolower` of the input's, so the result is lower-case |
| Text.LowerIdempotent | C/common/word.c:18-33 | normalizing an already normalized word changes nothing |
| Text.Strcmp | C/libcs50/set.c:83 | strcmp is zero exactly for equal strings, negative exactly when the first precedes the second in the character-wise order with a proper prefix first, and positive exactly when the second precedes |
| Text.LessTransitive | C/libcs50/set.c:81-101 | the order set keys are kept in is transitive |
| Text.LessTotal | C/libcs50/set.c:81-101 | any two different keys are ordered one way or the other |
| Text.FieldsOfSpaced | C/common/index.c:119-141 | tokens written each followed by a blank are read back by `%s` as exactly those tokens |
| Decimal.IntTextRoundTrip | C/common/index.c:119-123 | what `%d` writes for any int is one token that `%d` reads back as the same int |
| Decimal.NatTextValue | C/common/index.c:119-123 | the digits written for a non-negative number have that number as their value |
| Decimal.ScanInt | C/common/index.c:184 | one `%d` read consumes the longest sign-and-digits prefix of the token: it stores the prefix's value exactly when a digit follows the optional sign, consumes only the sign otherwise, and stops before the first non-digit |
| Decimal.ScanNumeral | C/common/index.c:184 | a token that is a whole numeral is consumed completely, as its value |
| Decimal.IntTextShort | C/common/index.c:177-181 | a non-negative C int takes at most ten characters, so it fits the 200-byte read buffer |
| Pairs.ToMapKeys | C/libcs50/set.c:183-192 | the keys of a visit sequence are the keys of the map it stands for |
| Pairs.ToMapSize | C/libcs50/set.c:183-192 | a visit sequence without repeated keys has one pair per map entry |
| StringSets.InsertTSpec | C/libcs50/set.c:81-101 | the tree insert keeps the BST order; it leaves the tree unchanged when the key is present and otherwise adds exactly that key with its item |
| StringSets.LookupAt | C/libcs50/set.c:119-135 | in an ordered tree, a key equal to the node's is found there, a smaller key only on the left and a larger key only on the right |
| StringSets.SetEntry.constructor | C/libcs50/set.c:54-62 | a new entry has no children and stands for the one-key map |
| StringSets.SetEntry.Find | C/libcs50/set.c:119-135 | the recursive search returns the key's item, or nothing when the subtree lacks the key |
| StringSets.SetEntry.Insert | C/libcs50/set.c:81-101 | the subtree becomes the tree insert of the old subtree; the result is true exactly when the tree changed |
| StringSets.SetEntry.InsertRight | C/libcs50/set.c:86-92 | a key after the node's goes into the right subtree, or into a new right child; the node's key, item and left subtree stay |
| StringSets.SetEntry.InsertLeft | C/libcs50/set.c:93-99 | a key before the node's goes into the left subtree, or into a new left child; the node's key, item and right subtree stay |
| StringSets.SetEntry.Walk | C/libcs50/set.c:183-192 | the in-order walk visits keys in strictly ascending strcmp order and stands for the subtree's map |
| StringSets.SetEntry.DeleteOrder | C/libcs50/set.c:211-223 | the deletion walk visits every entry of the subtree exactly once |
| StringSets.StringSet.constructor | C/libcs50/set.c:46-50 | a new set is empty |
| StringSets.StringSet.Insert | C/libcs50/set.c:66-77 | the insert succeeds exactly when the key is absent, and then adds it with its item; on a duplicate the set is unchanged and the first item stays |
| StringSets.StringSet.Find | C/libcs50/set.c:105-115 | the key's item, or none for an empty set or an absent key |
| StringSets.StringSet.Iterate | C/libcs50/set.c:170-192 | every entry is visited exactly once, in ascending strcmp order of the keys |
| StringSets.StringSet.DeleteOrder | C/libcs50/set.c:196-223 | deletion reaches every entry exactly once |
| StringSets.InsertTwice | C/libcs50/set.c:66-101 | inserting a key twice succeeds, then fails, and the key keeps its first item |
| Counters.AddAllCounts | C/libcs50/counters.c:77-91 | after adding a sequence of non-negative keys to empty counters, each key's count is how often it occurs in the sequence |
| Counters.CountAt | C/libcs50/counters.c:198-213 | in an ordered tree, a key equal to the node's is counted there, a smaller key only on the left and a larger key only on the right |
| Counters.Entry.constructor | C/libcs50/counters.c:163-172 | a new entry has no children and count 1 |
| Counters.Entry.Get | C/libcs50/counters.c:198-213 | the recursive lookup returns the key's count, or 0 for an absent key |
| Counters.Entry.AddNew | C/libcs50/counters.c:216-232 | the key's count goes up by one and is returned, a new key getting 1; the BST order is kept |
| Counters.Entry.AddLeft | C/libcs50/counters.c:221-225 | the recursive add into the left subtree, with the same contract |
| Counters.Entry.AddRight | C/libcs50/counters.c:226-230 | the recursive add into the right subtree, with the same contract |
| Counters.Entry.AttachLeft | C/libcs50/counters.c:225 | linking a lone entry as the missing left child adds exactly its key and count |
| Counters.Entry.AttachRight | C/libcs50/counters.c:230 | linking a lone entry as the missing right child adds exactly its key and count |
| Counters.Entry.SetEntry | C/libcs50/counters.c:175-195 | the key's count becomes the given count, creating the entry if needed; the BST order is kept |
| Counters.Entry.SetLeft | C/libcs50/counters.c:180-186 | the recursive set into the left subtree, with the same contract |
| Counters.Entry.SetRight | C/libcs50/counters.c:187-194 | the recursive set into the right subtree, with the same contract |
| Counters.Entry.Walk | C/libcs50/counters.c:151-160 | the in-order walk visits ids in strictly ascending order and stands for the subtree's counts |
| Counters.NewEntry | C/libcs50/counters.c:114-115 | a new lone entry whose count is set right after creation |
| Counters.Counters.constructor | C/libcs50/counters.c:70-74 | new counters are empty |
| Counters.Counters.Add | C/libcs50/counters.c:77-91 | a negative key is refused with 0 and nothing changes; otherwise the key's count goes up by one and the new count, at least 1, is returned |
| Counters.Counters.Set | C/libcs50/counters.c:107-119 | succeeds exactly when key and count are non-negative, and then sets that key's count; otherwise nothing changes |
| Counters.Counters.Get | C/libcs50/counters.c:94-104 | the key's count, 0 for an absent or negative key; never negative |
| Counters.Counters.Iterate | C/libcs50/counters.c:59-67 | every (id, count) pair is visited exactly once, in ascending id order |
| Counters.SetZero | C/libcs50/counters.c:107-119 | a count may be set to 0, and the id is then still visited with count 0 |
| Counters.AddTwice | C/libcs50/counters.c:77-91 | adding the same key twice returns 1, then 2 |
| Hashtables.UnionLookup | C/libcs50/hashtable.c:55-66 | in a table whose keys sit in their hashed slot, looking a key up in its slot is looking it up in the whole table |
| Hashtables.UnionAdd | C/libcs50/hashtable.c:45-50 | adding a key to its own slot adds it to the whole table |
| Hashtables.AppendSlot | C/libcs50/hashtable.c:76-80 | appending one slot's walk to the walk of the slots before it covers one slot more, keeping the slot-by-slot order |
| Hashtables.Hashtable.constructor | C/libcs50/hashtable.c:31-34 | a new table of n slots, every slot NULL, holding nothing |
| Hashtables.Hashtable.New | C/libcs50/hashtable.c:27-35 | NULL for a size that is not positive, otherwise an empty table of that size |
| Hashtables.Hashtable.Slot | C/libcs50/hashtable.c:45 | the slot of a key lies inside the table |
| Hashtables.Hashtable.Insert | C/libcs50/hashtable.c:39-51 | the key's slot gets a set if it had none; the insert succeeds exactly when the key is absent, and then adds it; other slots are untouched |
| Hashtables.Hashtable.InsertInSlot | C/libcs50/hashtable.c:50 | inserting into the existing set of the key's slot adds the key to the table exactly when it was absent |
| Hashtables.Hashtable.SlotChanged | C/libcs50/hashtable.c:50 | a `set_insert` into one slot keeps the table valid and changes its contents as the set changed |
| Hashtables.Hashtable.SlotFilled | C/libcs50/hashtable.c:47-49 | putting a new empty set into a NULL slot keeps the table valid and its contents unchanged |
| Hashtables.Hashtable.Iterate | C/libcs50/hashtable.c:70-81 | every entry is visited exactly once, slot by slot and in strcmp order within a slot |
| Hashtables.Hashtable.DeleteOrder | C/libcs50/hashtable.c:107-120 | deletion reaches every entry exactly once, slot by slot |
| Hashtables.Hashtable.Find | C/libcs50/hashtable.c:55-66 | the key's item, or none when its slot is NULL or lacks the key |
| Index.Index.constructor | C/common/index.c:36-46 | a new index over a table of the given size holds no words |
| Index.Index.New | C/common/index.c:30-47 | NULL for a size that is not positive, otherwise an empty index |
| Index.Index.CountersFor | C/common/index.c:57-70 | offering an empty counters under the word leaves the word's existing counters in place, or adds empty counts for a new word; the word's counters is what the lookup then finds |
| Index.Index.Offer | C/common/index.c:57-63 | the hashtable insert of a fresh counters succeeds exactly when the word is new |
| Index.Index.WordAdded | C/common/index.c:60 | adding a new word's empty counters keeps the index valid |
| Index.Index.WordChanged | C/common/index.c:73 | a change confined to one word's counters keeps the index valid |
| Index.Index.AddInWord | C/common/index.c:73 | counters_add on the word's counters: a negative id changes nothing and returns 0, otherwise that id's count for the word goes up by one and is returned |
| Index.Index.SetInWord | C/common/index.c:98 | counters_set on the word's counters: succeeds exactly when id and count are non-negative, and then sets that count for the word |
| Index.Index.IncrementCount | C/common/index.c:51-74 | the word gets counters if it had none; a negative id returns 0 and counts nothing, otherwise the (word, id) count goes up by one and is returned |
| Index.Index.InsertCount | C/common/index.c:78-99 | the word gets counters if it had none; succeeds exactly when id and count are non-negative, and then the (word, id) count becomes the given count |
| Index.Index.Get | C/common/index.c:200-203 | the word's counters, holding the word's counts, or none for a word the index lacks |
| Index.Index.Save | C/common/index.c:145-159 | an unopenable file fails and gets nothing; otherwise one line per word in hashtable order, each listing the word's pairs in ascending id order, and every word listed exactly once |
| Index.PrintWords | C/common/index.c:133-141 | each visited word is written as its line: the word, then its pairs in counters order |
| Index.Index.Reconstruct | C/common/index.c:163-196 | NULL for an unopenable file or one without a newline; otherwise NULL exactly when some pair is refused, and else an index of one slot per newline holding what parsing the text's tokens gives |
| Index.Index.ReadPairs | C/common/index.c:184-190 | while `fscanf("%d %d ")` reads two ints from the unread input, each pair is stored under the word, or the refused pair is reported; the input left is what the last, shorter read did not consume |
| Index.ReadPair | C/common/index.c:184 | one `fscanf("%d %d ")` never gives input back, and a read of two ints consumes at least two characters, so both reading loops end |
| Index.ReadTwo | C/common/index.c:184 | two numerals written by `idCountPrint` are read whole, as one pair, leaving the tokens after them |
| Index.ReadBeforeWord | C/common/index.c:184 | before a token that starts with neither a digit nor a sign (or at the end), `fscanf("%d %d ")` reads and consumes nothing |
| Index.DigitLedWord | C/common/index.c:183-190 | after "cat 1 1", `%d` reads 2 from "2abc" and `%s` reads "abc": the file gives cat {1:1} and abc {3:4} |
| Index.PairInsideToken | C/common/index.c:183-190 | "cat 1 2abc" stores the pair (1, 2) for cat, and "abc", read as a word without pairs, adds nothing |
| Index.SignConsumed | C/common/index.c:183-190 | the failing `%d` consumes the sign of "-dog", so the next word read is "dog" |
| Index.JoinedLines | C/common/index.c:173 | a file written as lines without newlines inside has one newline per line, which is what `file_numLines` counts |
| Index.ParseLinePairs | C/common/index.c:183-192 | the pairs of a written line all go into that word's counts, and reading carries on with the next word when it starts with neither a digit nor a sign |
| Index.ParseEntry | C/common/index.c:183-192 | reading one saved entry, word and pairs, leaves the tokens of the entries after it |
| Index.ParseSaved | C/common/index.c:183-192 | reading the tokens of saved entries whose words start with neither a digit nor a sign adds each entry that has pairs to the index read so far |
| Index.DescribedAt | C/common/index.c:133-141 | an entry with pairs describes its word with exactly those pairs; an entry without pairs leaves no word |
| Index.ListingDescribes | C/common/index.c:145-159 | the entries saved for an index describe exactly its (word, id, count) triples |
| Index.SaveThenParse | C/common/index.c:145-196 | the file saved for an index whose words start with neither a digit nor a sign parses back to the same index, less any words that have no ids |
| Index.SavedFileFits | C/common/index.c:177-181 | no token of a saved file overflows the 200-byte word buffer |
| Index.SavedFile | C/common/index.c:145-196 | the file saved for a non-empty index has one newline per word, fits the read buffer and parses back to the index |
| Index.SaveThenReconstruct | C/common/index.c:145-196 | saving a non-empty index whose words start with neither a digit nor a sign, and reconstructing it, gives an index with the same (word, id, count) triples |
| Unions.ConjCount | C/common/union.c:38-71 | after a conjunction, each id's count is the smaller of the accumulated count and the other counters' count |
| Unions.ConjKeys | C/common/union.c:51-61 | with positive counts, conjunction keeps exactly the ids both sides hold |
| Unions.ConjShrinks | C/common/union.c:51-61 | conjunction never adds an id either side lacks |
| Unions.ConjEmpty | C/common/union.c:38-71 | conjunction with absent or empty counters leaves nothing |
| Unions.DisjCount | C/common/union.c:126-130 | after a disjunction, each id's count is the sum of both counts, and the ids are the union of both sides' ids |
| Unions.DisjEmpty | C/common/union.c:75-79 | disjunction with absent or empty counters changes nothing |
| Unions.DisjIntoEmpty | C/common/union.c:75-79 | disjunction into an empty accumulator copies the other counters |
| Unions.PreserveNonNegative | C/common/union.c:38-79 | both operations keep ids and counts non-negative |
| Unions.ConjSoFarStep | C/common/union.c:51-64 | draining one id from the bag records the smaller count when the accumulated count is positive |
| Unions.BagOf | C/common/union.c:44 | the bag holds exactly the ids of the other counters |
| Unions.Drain | C/common/union.c:51-64 | one extraction from the bag keeps the draining invariant with one id fewer |
| Unions.Intersect | C/common/union.c:38-71 | the new accumulator is the conjunction of the old one with the other counters, or empty when the other is NULL |
| Unions.AddedAll | C/common/union.c:75-79 | adding the visited pairs one at a time is the disjunction with their map |
| Unions.Bump | C/common/union.c:126-130 | the disjunct callback adds the visited count to the id's accumulated count |
| Unions.Merge | C/common/union.c:126-130 | one callback call adds pair i of the walk |
| Unions.MergeAll | C/common/union.c:78 | the callback runs on every pair of the walk, in order |
| Unions.Merged | C/common/union.c:75-79 | the accumulator becomes the disjunction of its old counts with the other counters |
| Unions.Union.constructor | C/common/union.c:29-34 | a new union holds empty counters |
| Unions.Union.Conjunction | C/common/union.c:38-71 | the accumulator becomes its conjunction with the other counters, or empty for NULL |
| Unions.Union.Disjunction | C/common/union.c:75-79 | the accumulator becomes its disjunction with the other counters, or stays for NULL |
| Unions.Union.GetCounter | C/common/union.c:83-86 | the counters handed out hold the accumulated counts |
| Word.NormalizeWord | C/common/word.c:18-33 | the copy is the word with every character lower-cased |
| Word.End | C/common/word.c:42 | the first NUL at or after a position, or the buffer's end |
| Word.ScanStep | C/common/word.c:47-74 | one accepted character keeps the scan invariant: a letter after a blank starts a word, a blank after a word becomes a NUL |
| Word.ScanEnd | C/common/word.c:76-81 | when the scan reaches the end, the recorded words are exactly the whitespace-separated fields of the line |
| Word.ScanKept | C/common/word.c:54-60 | only blanks are overwritten, with NULs; a finished scan means no bad character, and a stop at an unaccepted character means there is one |
| Word.DecomposeSequence | C/common/word.c:38-82 | NULL exactly when the line holds a character that is neither a letter nor a space; otherwise the words read at the recorded starts are the line's fields, and only blanks became NULs |
| Word.FieldsOfLetters | C/common/word.c:55-66 | every word of an accepted query is a non-empty run of letters |
| Word.BlankQuery | C/common/word.c:38-82 | an empty or blank query decomposes into no words |
| Word.Strcpy | C/common/word.c:94 | the normalized word and a NUL are copied over the word in place |
| Word.NormalizeAt | C/common/word.c:91-97 | the word at one start is lower-cased in place and nothing else changes |
| Word.NormalizeEnd | C/common/word.c:89-98 | once the loop is done, every word is its old self lower-cased |
| Word.NormalizeSequence | C/common/word.c:86-99 | every word of the sequence is lower-cased in place, and characters outside the words are untouched |
| Word.CheckSyntax | C/common/word.c:103-143 | accepted exactly when the sequence has no operator first, none last and no two adjacent; each rejection is the first rule the loop breaks, with the words it names |
| Word.OperatorFirstRejected | C/common/word.c:119-122 | an operator may not come first |
| Word.OperatorLastRejected | C/common/word.c:136-139 | an operator may not come last |
| Word.MixedAdjacentRejected | C/common/word.c:110-116 | "and" next to "or" counts as two adjacent operators |
| Word.EmptyAccepted | C/common/word.c:103-143 | the empty sequence breaks no rule |
| Queries.Conjuncts | C/querier/querier.c:219-222 | the words looked up in a run are its tokens other than an explicit "and", in order |
| Queries.AndNonNegative | C/querier/querier.c:214-238 | a run's scores are never negative |
| Queries.AndCount | C/querier/querier.c:214-238 | a run's score for a document is the smallest of its words' counts for that document |
| Queries.AndMatches | C/querier/querier.c:214-238 | with positive counts, a document is scored by a run exactly when every word of the run is indexed for it |
| Queries.ConjMatches | C/common/union.c:51-61 | conjunction of positive counts is positive and keeps exactly the ids both sides hold |
| Queries.SplitJoin | C/querier/querier.c:179-191 | splitting a query at its "or"s loses nothing: the runs joined with "or" give back the query |
| Queries.SplitNoOr | C/querier/querier.c:219 | no run holds an "or" |
| Queries.SplitRun | C/querier/querier.c:179-191 | a run read after an "or" (or at the start) fills the empty last piece |
| Queries.OrEmpty | C/querier/querier.c:173-198 | the empty query scores nothing |
| Queries.OrSkip | C/querier/querier.c:180-182 | skipping an "or" changes no score |
| Queries.OrStep | C/querier/querier.c:184-186 | the scores of a query grow by disjunction with each run's scores |
| Queries.SplitGood | C/querier/querier.c:179-191 | on a well-formed query every run read so far starts with a word |
| Queries.GoodRuns | C/querier/querier.c:179-191 | a well-formed non-empty query splits into runs that each start with a word |
| Queries.SumRunsCount | C/querier/querier.c:184-186 | a document's total score is the sum of its run scores |
| Queries.SumRunsMatch | C/querier/querier.c:184-186 | a document is scored exactly when some run matches it |
| Queries.Precedence | C/querier/querier.c:173-238 | "and" binds tighter than "or": a document's score is the sum, over the runs between "or"s, of the smallest count among each run's words |
| Queries.Matches | C/querier/querier.c:173-238 | a document is scored exactly when every word of some run is indexed for it |
| Queries.OneRun | C/querier/querier.c:173-198 | a query without "or" is scored as a single run |
| Queries.FirstWord | C/querier/querier.c:224-226 | the first word of a run is copied in by disjunction into the empty union |
| Queries.Unindexed | C/querier/querier.c:219-230 | a run holding a word the index lacks scores nothing: index_get gives NULL, which adds nothing when first and leaves no common document afterwards |
| Queries.AndExample | C/querier/querier.c:214-238 | "cat and dog" scores only the document with both words, by the smaller count |
| Queries.OrExample | C/querier/querier.c:173-198 | "cat or bird" scores every document of either word, by the sum |
| Queries.PrecedenceExample | C/querier/querier.c:173-238 | "cat or bird and dog" reads as "cat or (bird and dog)", which scores differently from "(cat or bird) and dog" |
| Queries.AndThenOrExample | C/querier/querier.c:173-238 | "cat and dog or bird" reads as "(cat and dog) or bird": document 1 scores the smaller of its two counts, 2, and document 2 its "bird" count, 4, so it ranks first |
| Querier.Lookup | C/common/index.c:200-203 | index_get gives NULL exactly for a word the index lacks, else that word's counters |
| Querier.AndWord | C/querier/querier.c:220-230 | one word of the run is combined into the union: copied in when it is the first word, conjoined otherwise; "and" is skipped |
| Querier.ConjunctAndSequence | C/querier/querier.c:214-238 | stops at the end or at the next "or", with no "or" before that, and returns the run's scores |
| Querier.ReadRun | C/querier/querier.c:179-191 | the scores up to the end of a run are the scores before it plus the run's scores |
| Querier.OrRun | C/querier/querier.c:179-191 | one turn of the loop: an "or" is skipped, the next run is read and its scores are added by disjunction |
| Querier.DisjunctOrSequence | C/querier/querier.c:173-198 | the returned counters hold the query's scores |
| Querier.LowerAll | C/common/word.c:86-99 | every word is lower-cased, in order |
| Querier.ReadWords | C/common/word.c:38-99 | none exactly when the line has a bad character; otherwise the line's fields, lower-cased |
| Querier.Answer | C/querier/querier.c:87-93 | no matches for a query scoring nothing; otherwise a ranking of the query's scores |
| Querier.ProcessQuery | C/querier/querier.c:59-102 | a line is rejected for a bad character, ignored when blank, rejected for bad syntax after lower-casing, and otherwise answered with the ranking of its scores |
| Scoreboards.Entries | C/common/scoreboard.c:149-162 | addToBoard makes one entry per visited pair, in visiting order |
| Scoreboards.HighestFrom | C/common/scoreboard.c:133-139 | a position of a highest score in the range |
| Scoreboards.SortStep | C/common/scoreboard.c:63 | moving a highest remaining entry to the front of the rest extends the sorted prefix, and is a permutation |
| Scoreboards.SortByScore | C/common/scoreboard.c:63 | the filled prefix ends up sorted by score, highest first, as a permutation of what it held; the rest of the array is untouched |
| Scoreboards.FillStep | C/common/scoreboard.c:149-162 | the slot under the cursor is NULL, so the next entry goes there |
| Scoreboards.Fill | C/common/scoreboard.c:57-60 | the iteration fills the first slots with the visited pairs and leaves the rest NULL |
| Scoreboards.WalkHolds | C/common/scoreboard.c:57 | the entries made from a walk of the scores hold exactly the scores' pairs |
| Scoreboards.HoldsPermuted | C/common/scoreboard.c:63 | rearranging the entries keeps what they hold |
| Scoreboards.Board | C/common/scoreboard.c:43-66 | a board of the expected size whose first entries are exactly the scores' pairs, sorted highest first, followed by NULLs |
| Scoreboards.Sorted | C/common/scoreboard.c:63 | sorting keeps what the prefix holds and the NULLs after it |
| Scoreboards.Scoreboard.constructor | C/common/scoreboard.c:43-66 | the board holds exactly the scores, sorted, with the cursor before the first entry |
| Scoreboards.Scoreboard.Next | C/common/scoreboard.c:112-115 | the cursor moves on one, and there is more exactly while it stands on an entry |
| Scoreboards.Scoreboard.RowsOf | C/common/scoreboard.c:82-88 | one printed row per entry, each with its document's URL |
| Scoreboards.Scoreboard.RowsRank | C/common/scoreboard.c:70-93 | a board built from the scores prints a ranking: one row per scored document, with its score and URL, highest score first |
| Scoreboards.Scoreboard.Walk | C/common/scoreboard.c:82-88 | the print loop yields the rows of the entries after the cursor |
| Scoreboards.Scoreboard.Print | C/common/scoreboard.c:70-93 | "No matches found" for an empty board; otherwise the count and the rows in rank order, and the cursor is reset |
| Scoreboards.Scoreboard.EntriesOf | C/common/scoreboard.c:101-103 | the entries between two cursors, in rank order |
| Scoreboards.Scoreboard.Delete | C/common/scoreboard.c:97-108 | the entries after the cursor are freed, in rank order |
| Indexer.PageCount | C/indexer/indexer.c:139-156 | after a page is indexed, a word's count for that page grows by how often the page has the word (kept and lower-cased); other documents' counts are unchanged |
| Indexer.PageKeys | C/indexer/indexer.c:139-156 | indexing a page adds exactly the lower-cased words of at least three characters the page has |
| Indexer.OccurringKept | C/indexer/indexer.c:147-149 | every indexed word is lower-case and at least three characters long |
| Indexer.IndexPage | C/indexer/indexer.c:139-156 | the index after the loop is the old index with the page's words counted |
| Indexer.Fewer | C/indexer/indexer.c:117-123 | each page read leaves fewer pages to read |
| Indexer.BuiltFromCount | C/indexer/indexer.c:117-123 | after reading pages from id on, a word's count for a document is its occurrences there |
| Indexer.BuiltFromKeys | C/indexer/indexer.c:117-123 | after reading pages from id on, the words indexed are those some page read has |
| Indexer.Built | C/indexer/indexer.c:104-130 | the built index counts, for every word and document 1 to n, the word's occurrences in that page; it holds exactly the words some page has, all lower-case and at least three characters long |
| Indexer.IndexBuild | C/indexer/indexer.c:104-130 | NULL exactly when page 1 is missing; otherwise an index of 200 slots built from pages 1, 2, ... up to the first missing one |
| Querier.SourceBoard | C/querier/querier.c:90 | the 100-slot board of `main` is built, holding exactly the scores, for any scores with fewer than 100 documents, which is the constructor's precondition at that size |
| Querier.CapacityOverflow | C/querier/querier.c:90 | a one-word query against an index with the word in 100 documents scores 100 documents, which the 100-slot board cannot hold with its NULL after them |
| Querier.Rank | C/common/scoreboard.c:43-93 | with the board sized to the scores plus one, an empty score set prints "No matches" and any other prints a ranking of exactly those scores |

## Left out

- NULL arguments to the library functions (a NULL set, key, item, counters
  or index) are not modelled: Dafny references are non-null. The one NULL
  the core relies on, `index_get` of an absent word, is modelled (`Counters?`).
- Allocation failure (`mem_calloc` returning NULL, `mem_*_assert` exiting)
  is not modelled; every allocation succeeds.
- C `int` overflow is not modelled: counts, ids and scores are unbounded
  integers. This covers `++count` in `add_new_entry`, the score sums of
  `disjunct`, and the subtraction in `sortFunc`, which could overflow for
  scores of opposite sign far apart.
- Printing and I/O: `set_print`, `counters_print`, `hashtable_print`,
  `word_printSequence`, the stderr messages, `prompt`, `parseArgs` and the
  `main` functions' argument handling. What would be printed is returned
  as a value instead.
- Freeing memory: `set_delete`, `counters_delete`, `hashtable_delete`,
  `index_delete`, `union_delete` and `union_pointerDelete` are not modelled
  beyond the order in which deletion reaches the entries. The file that
  `index_reconstruct` leaves unclosed on a refused pair is not modelled.
- The `bag` of `union_conjunction` is a set, and the ids are drained in an
  arbitrary order. The result does not depend on the order.
- Counters.Entry.AddNew: `counters_add` allocates the new entry before the
  descent and `add_new_entry` frees it on a duplicate key. The model
  allocates the entry only at the point where it is linked in. The
  resulting tree and count are the same.
- Word.DecomposeSequence: the word-pointer array that starts at 100 slots
  and doubles with `realloc` is a sequence of start positions. Its growth
  and its NULL terminator are not modelled.
- Index.Index.Reconstruct: the 200-byte `currWord` buffer is a
  precondition, that every token of the file is shorter than 200
  characters. The overflow a longer word would cause is not modelled.
- Index.SaveThenReconstruct: the round trip is stated only for words that
  start with neither a digit nor a sign. For other words `index_reconstruct`
  reads back a different index (`Index.DigitLedWord`), so no round trip
  holds for them; the indexer never stores such words.
- `file_numLines` is not part of this model (libcs50's `file.c`). It is
  taken to count the newline characters of the file, as the reconstructed
  index's size depends on.
- Scoreboards.SortByScore: `qsort` is replaced by an in-place selection
  sort with the same contract: sorted by `sortFunc`, highest score first,
  and a permutation. The order among equal scores is not specified, as
  with `qsort`.
- `hash_jenkins` is any function into the table's range (`HashFn`); its
  actual bit mixing is not modelled.
- `pagedir_load`, `webpage_getNextWord` and `pagedir_getURL` are not part of
  this model. Pages are a map from id to their words, in reading order,
  and URLs are a function from id to string.
- The crawler, `indextest`, `wordDriver` and the page-directory code are
  outside the modelled core.

## Findings

| source | as written | input that shows it | evidently intended | confidence | as-written member | corrected member |
|---|---|---|---|---|---|---|
| C/querier/querier.c:90 | `main` calls `scoreboard_new(scores, 100)` whatever the number of scored documents, and `next()` stops only at a NULL slot. With 100 scored documents the entries fill every slot and `next()` reads `board[100]`; with more, the NULL test of `addToBoard` already reads past the array. | an index where "cat" occurs in each of documents 1 to 100, queried with `cat`: 100 documents are scored, so no NULL follows the last entry and `next()` reads past the array | a board of one slot per scored document plus one, so that every score is ranked and a NULL always ends the walk | high (not executed) | Querier.CapacityOverflow | Querier.Rank |
