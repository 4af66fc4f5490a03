# Student search system — a verified model

The system stores students (an id, a display name and a grade point average) in
two in-memory indexes at once:

- an **id index**, a separate-chaining hash table from id to student. It uses a
  polynomial hash with multiplier 31, reduced modulo the capacity after every
  character. A new id goes at the head of its chain and an existing id is
  overwritten in place. The table doubles its capacity and re-inserts every
  entry whenever the load factor exceeds 0.75 at the start of an insert;
- a **name index**, a 26-way trie over the lowercase ASCII letters of the
  normalized name (lowercased, whitespace removed; other non-letters skipped).
  Every node along a name's letter path keeps the list of students whose path
  passes through it, so a prefix query is answered by one node's list;
- a **facade** that adds every student to both indexes and routes id queries to
  the table and name queries to the trie.

The model has one module per source file:

- `Students` holds the record.
- `HashIndex` is the hash table, a class over an `array` of chains.
- `TrieNodes` holds the trie node and its student list.
- `NameTrie` is the trie and the specification of what it answers.
- `SearchSystem` is the facade.

Each index keeps a ghost abstraction:

- The hash table's is `Contents`, the id-to-student map.
- The trie's is `History`, the sequence of students inserted.

Every operation is proved against these. For example:

- Prefix search returns exactly `PrefixQuery(History, prefix)`. This filters
  the history by "the letter key of the name starts with the letter key of the
  query", in insertion order and with repetitions.
- The facade keeps the two indexes coupled. The table always holds
  `LatestById(History)`, which binds each id to the last student added with it.

## Model

| member | source | states |
|---|---|---|
| Students.Lookup | src/StudentHashTable.java:104-116 | A lookup is Some exactly when the key is present, and then it carries the stored student; otherwise it is None, which models null. |
| HashIndex.HashOf | src/StudentHashTable.java:56-65 | The bucket index is always below the capacity, and the empty key hashes to 0. |
| HashIndex.HashFitsInInt | src/StudentHashTable.java:56-65 | For a capacity of at most 69,271,553 and 16-bit characters, every intermediate `hash * 31 + char` fits in a Java int. So the unbounded arithmetic equals the source's. |
| HashIndex.StudentHashTable.Hash | src/StudentHashTable.java:56-65 | The hash loop computes HashOf(key, capacity). |
| HashIndex.StudentHashTable.constructor | src/StudentHashTable.java:43-47 | The table starts with capacity 100, size 0 and an empty map. |
| HashIndex.StudentHashTable.Insert | src/StudentHashTable.java:72-96 | The map becomes the old map with `s.id` bound to `s`, so every other id keeps its value. Size grows by one exactly when the id is new. Capacity doubles exactly when `4*size > 3*capacity` held on entry, updates included, and otherwise the same array is kept. |
| HashIndex.StudentHashTable.Search | src/StudentHashTable.java:104-116 | The result is the stored student for `key`, or None when the key was never inserted. |
| HashIndex.StudentHashTable.Resize | src/StudentHashTable.java:122-139 | Capacity doubles, so it is always 100·2^k. The key-to-student map and the size are preserved, in a fresh array. |
| HashIndex.StudentHashTable.ReinsertAll | src/StudentHashTable.java:132-138 | Re-inserting every chain of the old table into the emptied new one rebuilds exactly the old map. |
| HashIndex.StudentHashTable.ReinsertChain | src/StudentHashTable.java:133-137 | Re-inserting one chain extends the rebuilt map by exactly that chain's students. |
| HashIndex.StudentHashTable.CopyListing | src/StudentHashTable.java:157-165 | The bucket walk writes the listing of all chains, bucket by bucket and head first, into the array. |
| HashIndex.StudentHashTable.GetSize | src/StudentHashTable.java:146-148 | The size is the number of distinct ids stored. |
| HashIndex.StudentHashTable.GetAllStudents | src/StudentHashTable.java:155-168 | The array has length `size` and holds every stored student exactly once: each element is its id's stored value, every stored value appears, and no id repeats. |
| HashIndex.ListingIsContents | src/StudentHashTable.java:155-168 | The listing of a well-formed table consists of the map's students, with no repeated ids, and its ids are the map's keys. |
| HashIndex.ListingHasValues | src/StudentHashTable.java:155-168 | Every stored student appears in the listing. |
| HashIndex.Coverage | src/StudentHashTable.java:104-113 | Every key of the map has an entry in the chain its hash selects, so the search walk finds it. |
| HashIndex.Absent | src/StudentHashTable.java:108-115 | A key missing from its hash's chain is not in the map, so returning null is correct. |
| HashIndex.OverwriteKeepsInvariants | src/StudentHashTable.java:82-87 | Overwriting the value of the entry found for `s.id` keeps the table well formed and binds `s.id` to `s`. |
| HashIndex.PrependKeepsInvariants | src/StudentHashTable.java:91-95 | Prepending a new entry for an id absent from its chain keeps the table well formed, adds the binding, and adds one entry. |
| HashIndex.EmptyTable | src/StudentHashTable.java:43-47 | A table of empty buckets represents the empty map. |
| HashIndex.ListingIdsDistinct | src/StudentHashTable.java:155-168 | No id occurs twice in the listing of placed, duplicate-free chains. |
| HashIndex.DistinctIdsCount | src/StudentHashTable.java:146-148 | A list with pairwise distinct ids has as many ids as elements. |
| TrieNodes.SlotOf | src/TrieNode.java:109 | A letter's child slot `c - 'a'` lies in 0..25. |
| TrieNodes.LetterAt | src/TrieNode.java:105-110 | Every slot is the slot of exactly one letter. |
| TrieNodes.StudentList.Add | src/TrieNode.java:48-60 | `s` is appended at the tail and the size grows by one. The earlier elements stay unchanged and in order. |
| TrieNodes.StudentList.ToArray | src/TrieNode.java:67-78 | The array has length `size` and holds the list's students in insertion order. |
| TrieNodes.StudentList.GetSize | src/TrieNode.java:85-87 | The size is the number of students added. |
| TrieNodes.NewNode | src/TrieNode.java:93-97 | A new node has all 26 children absent, an empty list and the end-of-word flag off. |
| TrieNodes.TrieNode.GetChild | src/TrieNode.java:105-110 | A character outside 'a'..'z' has no child; a letter's child is its slot. |
| TrieNodes.TrieNode.SetChild | src/TrieNode.java:118-122 | For a letter, its child becomes `node`; the other 25 slots, the list and the flag are unchanged. For a non-letter, the node is unchanged. |
| TrieNodes.TrieNode.GetStudents | src/TrieNode.java:129-131 | Returns the node's own list, which is well formed in a well-formed node. |
| TrieNodes.TrieNode.IsEndOfWord | src/TrieNode.java:147-149 | Returns the node's end-of-word flag. |
| TrieNodes.TrieNode.AddStudent | src/TrieNode.java:138-140 | Exactly `students.add(s)`; the children and the flag are unchanged. |
| TrieNodes.TrieNode.SetEndOfWord | src/TrieNode.java:156-158 | `IsEndOfWord()` then returns `b`; the children and the list are unchanged. |
| NameTrie.Normalize | src/StudentNameTrie.java:33-35 | A normalized string is no longer than the original and contains no whitespace and no uppercase letters. |
| NameTrie.NormalizeIdempotent | src/StudentNameTrie.java:33-35 | Normalizing twice is normalizing once. |
| NameTrie.KeyIsLettersOfLower | src/StudentNameTrie.java:34 | Removing whitespace never removes a letter, so a name's letter path is the letters of its lowercased form. |
| NameTrie.StripKeepsLetters | src/StudentNameTrie.java:34 | Removing whitespace keeps every letter, in order. |
| NameTrie.StripIdempotent | src/StudentNameTrie.java:34 | Removing whitespace twice is removing it once. |
| NameTrie.TrimStart | src/StudentNameTrie.java:76 | Stripping the leading characters at or below U+0020 leaves nothing exactly when every character is at or below U+0020. Otherwise what is left starts with a character above U+0020. |
| NameTrie.TrimEnd | src/StudentNameTrie.java:76 | Stripping the trailing characters at or below U+0020 leaves nothing exactly when every character is at or below U+0020. |
| NameTrie.IsBlank | src/StudentNameTrie.java:76 | `trim().isEmpty()` holds exactly when every character of the string is at or below U+0020. |
| NameTrie.BlankIgnoresCase | src/StudentNameTrie.java:76 | Strings equal up to case are both blank under `trim()`, or neither is. |
| NameTrie.PrefixQueryIgnoresCase | src/StudentNameTrie.java:34 | Queries equal up to case have the same answer. |
| NameTrie.AliceQueries | src/StudentSearchSystem.java:197-201 | "alice" and "ALICE" have the same answer in every state. |
| NameTrie.BlankQueryIsEmpty | src/StudentNameTrie.java:76-78 | An empty or blank query answers nothing. |
| NameTrie.NoLetterQueryIsEmpty | src/StudentNameTrie.java:84-99 | A non-blank query with no letters, such as "123", answers nothing. Its exact-name search also answers nothing, even for a student named "123". |
| NameTrie.MatchingSnoc | src/StudentNameTrie.java:62 | Inserting `s` appends it to the matches of `w` exactly when `w` is a prefix of `s`'s letter path. |
| NameTrie.MatchingMembers | src/StudentNameTrie.java:42-67 | A student matches `w` if and only if it was inserted and `w` is a prefix of its letter path. |
| NameTrie.MatchingMultiplicity | src/StudentNameTrie.java:62 | A match occurs in the answer as often as it was inserted. |
| NameTrie.PrefixQueryMembers | src/StudentNameTrie.java:75-100 | A student is in the prefix answer if and only if: the query is non-blank and has letters, the student was inserted, and the query's letter path starts the student's letter path. |
| NameTrie.InsertedIsFound | src/StudentNameTrie.java:42-67 | A student just inserted is found by every non-blank query whose letters form a non-empty prefix of its name's letters. |
| NameTrie.NoMatchBeyond | src/StudentNameTrie.java:92-95 | When the walk finds no child, no inserted student matches, so answering an empty array is correct. |
| NameTrie.ExactPrefix | src/StudentNameTrie.java:126-130 | The exact matches among a prefix of the answer are a prefix of all the exact matches, which keeps the fill index within the array. |
| NameTrie.ExactWithinMatching | src/StudentNameTrie.java:108-133 | A student with the same normalized name as the query has the same letter path. So filtering the prefix answer equals filtering the whole history. |
| NameTrie.ExactQueryIsFilter | src/StudentNameTrie.java:108-133 | For a non-blank query with letters, the exact-name answer is every inserted student whose normalized name equals the query's, in insertion order. |
| NameTrie.CountExact | src/StudentNameTrie.java:113-120 | The counting pass returns the number of students of the array whose normalized name is `n`. |
| NameTrie.CollectExact | src/StudentNameTrie.java:123-132 | The filling pass returns exactly those students, in order, in an array of the counted size. |
| NameTrie.GrowAlong | src/StudentNameTrie.java:55-59 | Recording a node at `path` + [c] keeps every existing node where it was and adds paths only along `path` + [c]. |
| NameTrie.ChildOf | src/StudentNameTrie.java:55 | In a well-formed store, the child for a letter of the node at a path is the node at that path extended by the letter, and is absent when that path has no node. |
| NameTrie.GrowKeeps | src/StudentNameTrie.java:56-59 | Creating the missing child and linking it from its parent keeps the store well formed. Every child slot still points to the node one letter further down. |
| NameTrie.TouchKeeps | src/StudentNameTrie.java:62-66 | Changing a node's list or flag, but not its children, keeps the store and its links. |
| NameTrie.StageAfterGrow | src/StudentNameTrie.java:56-59 | A new node starts with an empty list, which is correct because no inserted student reaches it yet. |
| NameTrie.StageAfterAppend | src/StudentNameTrie.java:62 | Appending `s` at the next node of its letter path takes the lists one level deeper. Of the nodes at that depth, only that one gains `s`. |
| NameTrie.StudentNameTrie.constructor | src/StudentNameTrie.java:23-25 | A new trie is well formed. Its store is exactly one new node, the root, with no children, no students and the flag off. Only the empty path is indexed, and the history is empty. |
| NameTrie.StudentNameTrie.Grow | src/StudentNameTrie.java:56-59 | Adds one new node as the letter's child of the current node and leaves the rest of the store unchanged. |
| NameTrie.StudentNameTrie.Descend | src/StudentNameTrie.java:55-63 | Moves to the letter's child, creating it when absent and reusing it otherwise, and appends the student there. |
| NameTrie.StudentNameTrie.Insert | src/StudentNameTrie.java:42-67 | Records `s` in the history. Every node then holds exactly its path's matches in the new history. The last node of `s`'s letter path has end-of-word set, which is the root for a name with no letters. No other node's flag changes, and every other new node has the flag off. Existing nodes keep their positions and new nodes lie only along `s`'s letter path. |
| NameTrie.StudentNameTrie.Step | src/StudentNameTrie.java:47-64 | One iteration of the walk: a non-letter is skipped, and a letter moves one level down `s`'s letter path. The walk's invariant Walked is kept, covering the shape, the lists per stage, the growth along the path and the flags. |
| NameTrie.StudentNameTrie.Sprout | src/StudentNameTrie.java:56-59 | Creates the missing child for the letter. The store stays well formed, the lists stay at their stage, and the new node has the flag off. |
| NameTrie.StudentNameTrie.Append | src/StudentNameTrie.java:62 | Appends `s` to the list of the node just reached, changing nothing else. This takes the lists one level deeper. |
| NameTrie.StudentNameTrie.Finish | src/StudentNameTrie.java:66 | At the end of the walk, every node holds its matches in the history extended by `s`. The last node is marked end of word, and no other node changes. |
| NameTrie.StudentNameTrie.MarkEnd | src/StudentNameTrie.java:66 | Sets exactly the flag of the current node. The store, its links and its lists are unchanged. |
| NameTrie.FlagsTrans | src/StudentNameTrie.java:47-64 | Keeping the flags is transitive over the steps of the walk. |
| NameTrie.MarkedFlags | src/StudentNameTrie.java:66 | After the walk, one mark sets the last node's flag and leaves every other flag as it was before the insert. New nodes stay unmarked. |
| NameTrie.FlagsByPath | src/StudentNameTrie.java:66 | Read by path: every path present before the insert, other than `s`'s letter path, keeps its flag. |
| NameTrie.StudentNameTrie.SearchByPrefix | src/StudentNameTrie.java:75-100 | The answer is PrefixQuery(History, prefix). It is empty for a blank prefix, for one with no letters, and for a path not in the trie. The search reads the trie without changing it. |
| NameTrie.StudentNameTrie.SearchByExactName | src/StudentNameTrie.java:108-133 | The answer is the subsequence of the prefix answer whose normalized name equals the normalized query. |
| NameTrie.StudentNameTrie.IsEmpty | src/StudentNameTrie.java:140-142 | True in every valid state: insert never appends to the root's list. |
| SearchSystem.LatestByIdKeys | src/StudentSearchSystem.java:78-80 | The ids bound in the table are exactly the ids ever added. |
| SearchSystem.LatestIsLast | src/StudentSearchSystem.java:39-52 | The student an id finds is the last one added with that id. |
| SearchSystem.AddThenSearchById | src/StudentSearchSystem.java:39-52 | After adding `s`, its id finds `s`, and every other id finds what it found before. |
| SearchSystem.AddSize | src/StudentSearchSystem.java:78-80 | Adding grows the number of distinct ids by one exactly when the id is new. Re-adding a known id leaves it unchanged. |
| SearchSystem.StaleNameEntry | src/StudentSearchSystem.java:39-42 | After a second student is added under a used id, the id finds the new student. A name search for the old name still finds the old student. |
| SearchSystem.NeverAddedNotFound | src/StudentSearchSystem.java:50-52 | An id no added student has finds nobody. |
| SearchSystem.DemoMisses | src/StudentSearchSystem.java:193-205 | On the ten demonstration students, "S999" finds nobody and the empty name query finds nobody. |
| SearchSystem.StudentSearchSystem.constructor | src/StudentSearchSystem.java:28-31 | Both indexes start empty and agree. The hash table, its bucket array and the trie are new objects owned by the system. |
| SearchSystem.StudentSearchSystem.AddStudent | src/StudentSearchSystem.java:39-42 | Appends `s` to the name history and binds `s.id` to `s` in the table. It keeps the coupling `table == LatestById(history)`. The bucket array is the old one or, after a resize, a new one, so adds compose. |
| SearchSystem.StudentSearchSystem.SearchById | src/StudentSearchSystem.java:50-52 | The answer is the last student added with the id, or None. |
| SearchSystem.StudentSearchSystem.SearchByName | src/StudentSearchSystem.java:60-62 | The answer is the prefix query over every student added, including students whose id was later reused. |
| SearchSystem.StudentSearchSystem.GetAllStudents | src/StudentSearchSystem.java:69-71 | One student per distinct id added, each the last added with that id, with no id repeated. The length is GetSize(). |
| SearchSystem.StudentSearchSystem.GetSize | src/StudentSearchSystem.java:78-80 | The number of distinct ids added. |

## Left out

- `main`, `printHeader` and `printResults` are left out: they are console output and `System.nanoTime` timing. `Student.toString` is left out because it formats floating point.
- Lowercasing is ASCII only ('A'..'Z'), and `\s` is the fixed set {space, tab, newline, vertical tab, form feed, carriage return}. Java's locale- and Unicode-aware `toLowerCase` is not modelled.
- The grade point average is an opaque `real` payload; nothing reads it.
- The load-factor test `(double) size / capacity > 0.75` is modelled as the exact integer comparison `4*size > 3*capacity`.
- HashIndex.HashOf: uses unbounded integers. HashFitsInInt shows this agrees with Java's 32-bit arithmetic for capacities up to 69,271,553. Wrap-around for larger tables is not modelled, and `Math.abs` is then the identity.
- Null arguments are excluded by the types. In the source, `searchByPrefix(null)` returns an empty array, and so does `searchByName(null)`. `searchByExactName(null)` throws when it normalizes the name, as do `insert` and `addStudent` with a null student or name. `search(null)` throws as well.
- Strings are sequences of code points, while Java strings are sequences of UTF-16 code units. For an id holding a character outside the Basic Multilingual Plane, `hash` folds its two surrogate units, while `HashIndex.HashOf` folds one code point. The bucket chosen, and so the order of `getAllStudents`, differ for such ids. HashFitsInInt therefore requires characters below U+10000. Searches and the stored map are unaffected. Likewise, `normalize` and the trie walk see surrogate units, which are never letters in either model.
- Object identity of shared `Student` references is not modelled: students are compared by value.
- TrieNode and StudentList are values, not objects. The trie keeps its nodes in a store (`nodes: seq<TrieNode>`), and a child slot holds a node's position in it. In-place update of a node through a shared reference and aliasing between nodes are not modelled.
- TrieNodes.StudentList.Add: the list's chain of `StudentNode` links is a sequence. The walk to the tail is not modelled, only its outcome (append at the tail).
- Several source loops are split into helper methods without changing what they compute:
  - the walk of `insert` is split into `Step`, `Descend`, `Sprout`, `Append`, `Finish` and `MarkEnd`;
  - the two passes of `searchByExactName` are split into `CountExact` and `CollectExact`;
  - the rehash loop of `resize` is split into `ReinsertAll` and `ReinsertChain`;
  - the copy loop of `getAllStudents` is `CopyListing`.
  These helpers use the source's own branches and order.
- The hash table's `Node` chains are sequences of entries held in the bucket array, with the head first. Overwriting `current.value` in place is modelled as replacing that entry in its chain.
