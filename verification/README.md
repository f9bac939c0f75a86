# wordjumble tries in Dafny

A model of the dictionary core of wordjumble, a Go program that lists every
dictionary word that can be spelled from a rack of letters. The core has three
parts:

- **A byte-string trie with insert and membership.** It comes in two
  representations:
  - sparse: `maptrie`, a `map[byte]trie` in which key 0 is the end-of-word
    marker;
  - dense: `arraytrie`, a `[257]*Trie` in which slot 256 holds the shared
    `hit` sentinel.
- **A backtracking search.** It walks the trie along letters of the rack in
  one of two modes:
  - unlimited reuse;
  - consuming, in which each letter instance is used at most once. In
    maptrie/trie.go this is swap-to-front, recurse, swap back. The consuming
    mode of arraytrie/trie.go leaves out the swap back.

  Each path is built in reverse and turned around afterwards.
- **Result normalisation** (`UniqueifyResults`): sort by a hand-written
  byte-lexicographic less-than, then compact adjacent duplicates in place.

Words, paths and letter buffers are `seq<byte>` values (`Bytes.Word`).

Meaning:
- A trie denotes a set of words (`Contains`).
- A word is *spellable* from letters `L` (`Bytes.Spellable`):
  - in unlimited mode, when every byte of it occurs in `L`;
  - in consuming mode, when its byte multiset is a sub-multiset of `L`'s.

The properties proved are:
- the insert/membership law;
- soundness of every search against `Spellable`;
- completeness of both maptrie searches, of the arraytrie/array_trie.go
  search for a non-empty rack, and of the arraytrie/trie.go search in
  unlimited mode and, in consuming mode, once the swap back is restored
  (see Findings);
- the loop invariants of the in-place algorithms;
- the laws of the normalisation (strict order, same elements, idempotence,
  independence from the sort's choice of permutation);
- the unit tests' cases.

Modules, one per source file:

| module | file | what |
|---|---|---|
| `Bytes` | (shared) | bytes, words, spellability, reversal, swap |
| `TrieHelper` | trie/trie.go | `bytesLessThan`, `bytesEqual`, `UniqueifyResults` |
| `MapTrieCore` | maptrie/trie.go | the sparse trie and its two searches |
| `MapTrie` | maptrie/map_trie.go | the exported sparse `Trie` with its load counter |
| `ArrayTrie` | arraytrie/array_trie.go | the dense trie and its unlimited search without dedup |
| `ArrayTrieCore` | arraytrie/trie.go | the dense search with a `consume` flag and dedup |
| `TrieTests` | the `_test.go` files | the unit tests' cases as lemmas |

The two arraytrie files are modelled as two separate variants. Both declare
`hit` and `permuteInner`, and arraytrie/trie.go uses a `trie` field that the
array type lacks, so the package as a whole does not compile. The `load` and
`contains` of arraytrie/trie.go are identical to `Load` and `Contains` of
arraytrie/array_trie.go, so they are modelled once, as `ArrayTrie.Load` and
`ArrayTrie.Contains`.

The three search variants differ from one another, and the model keeps each
one as written:
- **Empty letters.** arraytrie/array_trie.go:77 returns nothing for an empty
  rack (`ArrayTrie.PermuteInner`). maptrie/trie.go:56-64 and
  arraytrie/trie.go:77-85 yield "" in that case when the root is terminal.
- **No dedup in array_trie.go.** The `permuteAll` functions of
  maptrie/trie.go:52 and arraytrie/trie.go:73 sort and deduplicate through
  `UniqueifyResults`. arraytrie/array_trie.go:64-73 does neither
  (`TrieTests.ArrayRepeats`).
- **No restore in trie.go.** arraytrie/trie.go:91-94 swaps the chosen letter
  to the front and never swaps it back. maptrie/trie.go:98-99 swaps it back,
  and its comment says this is needed because the buffer is not copied
  before recursing (see Findings).

## Model

| member | source | states |
|---|---|---|
| `TrieHelper.Less` | trie/trie.go:32-41 | the recursive form of `bytesLessThan`: nothing precedes the empty word, the empty word precedes every other word, and when the first bytes differ the smaller one decides |
| `TrieHelper.LessIsLexicographic` | trie/trie.go:32-41 | the order `bytesLessThan` computes is exactly: a proper prefix comes first, otherwise the smaller byte at the first difference decides (both directions) |
| `TrieHelper.LessTrichotomous` | trie/trie.go:32-41 | for distinct words exactly one of `Less(a, b)`, `Less(b, a)` holds, and neither holds for equal ones |
| `TrieHelper.LessTransitive` | trie/trie.go:32-41 | the order is transitive, so it is a strict total order |
| `TrieHelper.LessIrreflexive` | trie/trie.go:37-39 | no word precedes itself: the loop strips the whole word and `len(b) == 0` answers false |
| `TrieHelper.BytesLessThan` | trie/trie.go:32-41 | the loop's answer is true iff `a` is a proper prefix of `b` or is smaller at the first difference |
| `TrieHelper.BytesEqual` | trie/trie.go:43-49 | the loop's answer is true iff the two byte strings are equal |
| `TrieHelper.Sort` | trie/trie.go:15-17 | the sort yields an ascending permutation of its input (multiset kept) |
| `TrieHelper.Insert` | trie/trie.go:15-17 | one insertion step of the sort keeps ascending order and adds exactly the one element |
| `TrieHelper.Compact` | trie/trie.go:18-27 | compaction never lengthens, and keeps the last element |
| `TrieHelper.CompactKeepsElements` | trie/trie.go:18-27 | compaction neither adds nor loses a value |
| `TrieHelper.CompactStrictlySorted` | trie/trie.go:18-27 | compacting an ascending list leaves it strictly ascending (duplicate-free) |
| `TrieHelper.CompactionStep` | trie/trie.go:19-26 | one loop iteration extends the compacted prefix `retval[..i+1-shift]` by one input element and leaves `retval[i..]` as sorted, since writes land at `i-shift` |
| `TrieHelper.CompactAdjacent` | trie/trie.go:18-27 | the in-place shift loop and the final cut produce exactly the compaction of the sorted list |
| `TrieHelper.Uniqueify` | trie/trie.go:14-30 | the normalised list is strictly ascending, holds exactly the input's values, is no longer than the input, and is empty for empty input |
| `TrieHelper.UniqueifyResults` | trie/trie.go:14-30 | the sort-then-compact method returns the strictly ascending list of exactly the input's values |
| `TrieHelper.StrictlySortedUnique` | trie/trie.go:14-30 | two strictly ascending lists with the same values are equal, so the normalised result is determined by the set of inputs |
| `TrieHelper.AnySortGivesSameResult` | trie/trie.go:15-27 | whichever ascending permutation the sort picks, compaction gives the same result |
| `TrieHelper.UniqueifyIdempotent` | trie/trie.go:14-30 | normalising a normalised list changes nothing |
| `TrieHelper.UniqueifyDeterministic` | trie/trie.go:14-30 | inputs with the same values, in any order and multiplicity, normalise to the same list |
| `MapTrieCore.Load` | maptrie/trie.go:11-22 | `load` always returns a non-nil node |
| `MapTrieCore.Contains` | maptrie/trie.go:24-35 | a word is contained iff following its bytes from the root reaches a node where key 0 is present |
| `MapTrieCore.DescendConcat` | maptrie/trie.go:24-35 | following a path in two pieces reaches the same node as following it at once |
| `MapTrieCore.ContainsSplit` | maptrie/trie.go:24-35 | `u + v` is contained iff `v` is contained below the node that `u` leads to |
| `MapTrieCore.LoadWf` | maptrie/trie.go:11-22 | loading a word without byte 0 keeps the shape: no nil children, and key 0 only holds `hit` |
| `MapTrieCore.LoadContains` | maptrie/trie.go:11-35 | for words without byte 0, after `load(t, w)` a word `v` is contained iff `v == w` or it was contained before |
| `MapTrieCore.LoadIdempotent` | maptrie/trie.go:11-22 | loading a word a second time builds the same tree |
| `MapTrieCore.PermuteInner` | maptrie/trie.go:56-77 | the unlimited search finds nothing at a nil node, puts the empty path first at a node with a non-nil key 0, and finds at most that for an empty rack |
| `MapTrieCore.PermuteInnerConsume` | maptrie/trie.go:80-103 | the consuming search finds nothing at a nil node, puts the empty path first at a node with a non-nil key 0, and finds at most that for an empty rack |
| `MapTrieCore.PermuteInnerSound` | maptrie/trie.go:56-77 | every raw path of the unlimited search, reversed, is a contained word using only bytes among the letters |
| `MapTrieCore.PermuteFromSound` | maptrie/trie.go:66-74 | the same soundness for the paths found by iterations `i..` of the letter loop |
| `MapTrieCore.PermuteAtSound` | maptrie/trie.go:67-73 | the same soundness for one iteration: a path below the letter's child, with the letter appended |
| `MapTrieCore.PermuteInnerConsumeSound` | maptrie/trie.go:80-103 | every raw path of the consuming search, reversed, is a contained word whose bytes form a sub-multiset of the letters |
| `MapTrieCore.ConsumeFromSound` | maptrie/trie.go:90-100 | the same soundness for the paths found by iterations `i..` of the swap/recurse/restore loop |
| `MapTrieCore.ConsumeAtSound` | maptrie/trie.go:91-97 | the same soundness for one iteration: the letter swapped to the front is spent, and the child searches only the rest of the buffer |
| `MapTrieCore.RawSound` | maptrie/trie.go:39-45 | whichever search the `consume` flag selects is sound for its own spellability policy |
| `MapTrieCore.PermuteAll` | maptrie/trie.go:39-53 | `permuteAll` returns a strictly ascending list of contained words spellable under the mode |
| `MapTrieCore.PermuteInnerComplete` | maptrie/trie.go:56-77 | every contained word using only the letters is found by the unlimited search, as its reversed path |
| `MapTrieCore.PermuteInnerConsumeComplete` | maptrie/trie.go:80-103 | every contained word that is a sub-multiset of the letters is found by the consuming search, as its reversed path |
| `MapTrieCore.PermuteAllExact` | maptrie/trie.go:39-103 | a word is in `permuteAll(t, L, c)` iff it is contained and spellable from `L` under mode `c` |
| `MapTrieCore.PermuteInnerConsumeInPlace` | maptrie/trie.go:80-103 | the in-place swap/recurse/restore search leaves the caller's buffer exactly as it found it and returns the consuming search's paths |
| `MapTrieCore.ConsumeStepInPlace` | maptrie/trie.go:91-99 | one iteration on the array (swap to front, recurse on the rest, swap back) contributes exactly the paths of that iteration of the value-level consuming search and leaves the buffer as it was |
| `MapTrieCore.PermuteAllInPlace` | maptrie/trie.go:39-53 | `permuteAll` on a caller's buffer leaves it unchanged in both modes and returns the value of `PermuteAll` |
| `MapTrie.New` | maptrie/map_trie.go:10-15 | `New` gives a non-nil, well-formed trie with count 0 that contains no word, not even "" |
| `MapTrie.Load` | maptrie/map_trie.go:17-21 | `Load` returns true, adds one to the count, and afterwards `v` is contained iff it was before or `v == word` (so reloading changes no membership) |
| `MapTrie.LoadString` | maptrie/map_trie.go:17-25 | loading a string returns true, adds one to the count, and afterwards an ASCII string is contained iff it was before or equals the loaded one |
| `MapTrie.Count` | maptrie/map_trie.go:31-33 | the count is never negative, and is 0 for a trie built by `New` (whose count starts at 0) |
| `MapTrie.Contains` | maptrie/map_trie.go:35-40 | a nil receiver contains nothing; otherwise a word is contained iff its path from the root reaches a node where key 0 is present |
| `MapTrie.ContainsString` | maptrie/map_trie.go:35-44 | a string is contained iff the receiver is not nil and the path of its bytes reaches a node where key 0 is present |
| `MapTrie.LoadAll` | maptrie/map_trie.go:17-25 | after a series of `Load` calls the count is the old count plus the number of calls, duplicates included, and the contained words are the old ones plus the loaded ones |
| `MapTrie.PermuteAll` | maptrie/map_trie.go:27-29 | the wrapper's result is strictly ascending and every element is contained and spellable |
| `MapTrie.PermuteAllComplete` | maptrie/map_trie.go:27-29 | no contained, spellable word is missing from the wrapper's result |
| `MapTrie.PermuteAllOfLoaded` | maptrie/map_trie.go:10-29 | after loading a word list into a new trie, `PermuteAll` is exactly the ascending list of the loaded words spellable from the letters |
| `MapTrie.PermuteAllOnBuffer` | maptrie/map_trie.go:27-29 | the caller's buffer is passed on uncopied and is nonetheless unchanged when `PermuteAll` returns |
| `ArrayTrie.New` | arraytrie/array_trie.go:18-20 | `New` is the nil trie, which contains no word, not even "" |
| `ArrayTrie.Empty` | arraytrie/array_trie.go:24-26 | a freshly allocated node has all 256 byte slots nil and slot 256 unset |
| `ArrayTrie.Load` | arraytrie/array_trie.go:23-35 | `Load` returns a node; every byte slot other than the word's first byte keeps its child, and a set slot 256 stays set |
| `ArrayTrie.LoadString` | arraytrie/array_trie.go:23-40 | loading a string returns a node, and afterwards an ASCII string is contained iff it was before or equals the loaded one |
| `ArrayTrie.Contains` | arraytrie/array_trie.go:50-60 | a word is contained iff following its bytes from the root reaches a node whose slot 256 is `hit` |
| `ArrayTrie.ContainsString` | arraytrie/array_trie.go:44-60 | a string is contained iff the path of its bytes reaches a node whose slot 256 is `hit` |
| `ArrayTrie.LoadContains` | arraytrie/array_trie.go:23-60 | after `Load(at, w)` a word `v` is contained iff `v == w` or it was contained before, for all byte values 0..255 |
| `ArrayTrie.LoadIdempotent` | arraytrie/array_trie.go:23-35 | loading a word a second time builds the same tree |
| `ArrayTrie.EmptyContainsNothing` | arraytrie/array_trie.go:50-60 | a fresh node contains no word |
| `ArrayTrie.PermuteInner` | arraytrie/array_trie.go:76-79 | an empty rack gives no path, even when the node is terminal |
| `ArrayTrie.PermuteInnerSound` | arraytrie/array_trie.go:76-95 | every path found, reversed, is a contained word using only bytes among the letters |
| `ArrayTrie.PermuteFromSound` | arraytrie/array_trie.go:86-92 | the same soundness for the paths found by iterations `i..` of the letter loop |
| `ArrayTrie.PermuteAtSound` | arraytrie/array_trie.go:87-91 | the same soundness for one iteration: a path below the letter's slot, with the letter appended |
| `ArrayTrie.PermuteAll` | arraytrie/array_trie.go:64-73 | an empty rack gives nothing, even with "" loaded; every result is a contained word using only bytes among the letters |
| `ArrayTrie.PermuteInnerComplete` | arraytrie/array_trie.go:76-95 | for a non-empty rack every contained word using only the letters is found, as its reversed path |
| `ArrayTrie.PermuteAllExact` | arraytrie/array_trie.go:64-95 | a word is in `PermuteAll(at, L)` iff `L` is non-empty, the word is contained, and it uses only bytes among `L` |
| `ArrayTrie.PermuteAllDistinct` | arraytrie/array_trie.go:64-95 | there is no dedup, but with pairwise distinct letters no word is returned twice |
| `ArrayTrieCore.PermuteInner` | arraytrie/trie.go:77-102 | the buffer the search leaves behind is a permutation of the one it was given, and is untouched in unlimited mode |
| `ArrayTrieCore.PermuteFrom` | arraytrie/trie.go:87-99 | the same for iterations `i..` of the loop, each reading the buffer as the previous iteration left it |
| `ArrayTrieCore.PermuteInnerSound` | arraytrie/trie.go:77-102 | every path found, reversed, is a contained word spellable from the buffer as it was on entry |
| `ArrayTrieCore.PermuteFromSound` | arraytrie/trie.go:87-99 | the same soundness for iterations `i..`, relative to the buffer iteration `i` starts from, although later iterations read it scrambled |
| `ArrayTrieCore.PermuteInnerBase` | arraytrie/trie.go:78-85 | a nil node finds nothing and leaves the buffer alone; a terminal node contributes the empty path first, and a non-terminal node never does |
| `ArrayTrieCore.PermuteAll` | arraytrie/trie.go:64-74 | the result is strictly ascending and every element is contained and spellable under the mode |
| `ArrayTrieCore.UnlimitedAgrees` | arraytrie/trie.go:77-102 | in unlimited mode and for a non-empty rack the search finds the same paths, in the same order, as the search of arraytrie/array_trie.go |
| `ArrayTrieCore.PermuteAllUnlimitedExact` | arraytrie/trie.go:64-102 | in unlimited mode a word is returned iff it is contained and uses only bytes among the letters |
| `ArrayTrieCore.ConsumeMissesWord` | arraytrie/trie.go:87-99 | with {"bc", "c"} loaded and letters "abc" the consuming `permuteAll` returns only "bc", although "c" is contained and consumable; the buffer ends as "bca" |
| `ArrayTrieCore.RestoringSound` | arraytrie/trie.go:87-99 | the search with the swap undone after each child is sound for both modes |
| `ArrayTrieCore.RestoringFromSound` | arraytrie/trie.go:87-99 | the same soundness for iterations `i..` of the corrected loop, which all read the buffer they were given |
| `ArrayTrieCore.PermuteAllRestoring` | arraytrie/trie.go:64-74 | `permuteAll` over the corrected search is strictly ascending and sound |
| `ArrayTrieCore.RestoringComplete` | arraytrie/trie.go:87-99 | the corrected search finds every contained word spellable under the mode |
| `ArrayTrieCore.PermuteAllRestoringExact` | arraytrie/trie.go:64-102 | with the swap undone a word is returned iff it is contained and spellable under the mode |
| `ArrayTrieCore.RestoringAgrees` | arraytrie/trie.go:87-99 | the correction changes nothing in unlimited mode |
| `ArrayTrieCore.WalkMissesC` | arraytrie/trie.go:87-99 | for every dense trie of the walked shape (root without "a", "b" leading only to a terminal "bc") that contains "c", the consuming search for "abc" returns only "bc" and leaves the buffer as "bca" |
| `ArrayTrieCore.ConsumesC` | arraytrie/trie.go:87-99 | "c" is spellable from "abc" using each letter at most once, so a complete consuming search would have to return it |
| `ArrayTrieCore.RestoringFindsWord` | arraytrie/trie.go:87-99 | on the example of `ConsumeMissesWord` the corrected search does return "c" and the search as written does not |
| `ArrayTrieCore.RestoringFindsC` | arraytrie/trie.go:87-99 | in every dense trie containing "c" the corrected consuming search for "abc" returns "c" |
| `Bytes.Ascii` | arraytrie/array_trie.go:38-40 | `[]byte(s)` of an ASCII string is one byte per character, with the character's code |
| `Bytes.Swap` | maptrie/trie.go:91 | swapping two positions exchanges them and touches nothing else |
| `Bytes.SwapMultiset` | maptrie/trie.go:91 | a swap keeps the multiset of letters in the buffer |
| `Bytes.ConsumesTail` | maptrie/trie.go:91-94 | spending a word's first byte on the letter swapped to the front leaves the rest of the word consumable from `letters[1:]` |
| `Bytes.ReverseBytes` | maptrie/trie.go:46-51 | the two-index swap loop reverses a path in place |
| `Bytes.ReverseEach` | maptrie/trie.go:46-51 | the reversal pass turns every raw path into the word whose reverse it is |
| `Bytes.ReverseSpellable` | maptrie/trie.go:46-51 | reversal keeps spellability under both modes |
| `TrieTests.MapEmpty` | maptrie/map_trie_test.go:11-18 | neither a new map trie nor the nil one contains "" or "x" |
| `TrieTests.MapFull` | trie/trie_test.go:36-53 | after `LoadString("full")` and `LoadString("fu")`: "", "x", "fullx" are absent, "full" and "fu" are present, and the count is 2 |
| `TrieTests.MapFulxdUnlimited` | trie/trie_test.go:73 | {fu, full} with "fulxd", unlimited, gives [fu, full] |
| `TrieTests.MapFulxdConsume` | trie/trie_test.go:74 | {fu, full} with "fulxd", consuming, gives [fu] |
| `TrieTests.MapFulxdll` | trie/trie_test.go:75-76 | {fu, full} with "fulxdll" gives [fu, full] in both modes |
| `TrieTests.MapCab` | trie/trie_test.go:77-78 | {baa, cab} with "cab" gives [baa, cab] unlimited and [cab] consuming |
| `TrieTests.ArrayEmpty` | arraytrie/array_trie_test.go:11-18 | the nil dense trie contains neither "" nor "x" |
| `TrieTests.ArrayFull` | arraytrie/array_trie_test.go:20-27 | after loading "full" and "fu": "", "x", "fullx" are absent, "full" and "fu" are present |
| `TrieTests.ArrayFulxd` | arraytrie/array_trie_test.go:29-37 | "fulxd" gives "fu" and "full", each exactly once, in some order |
| `TrieTests.ArrayRepeats` | arraytrie/array_trie.go:86-92 | without dedup, "a" loaded and letters "aa" give "a" twice |
| `TrieTests.ArrayCoreFulxd` | arraytrie/trie.go:64-102 | the unlimited search of arraytrie/trie.go answers "fulxd" over {fu, full} with [fu, full] |

## Left out

- main.go, config.go and logging/log_ctx.go are not part of this model. They
  hold the command line, dictionary decompression and loading, the REPL,
  printing, timing and logging, which are I/O around the core.
- `sort.Slice` is modelled by a functional insertion sort ordered by
  `bytesLessThan`. Go's sort picks some ascending permutation, and
  `TrieHelper.AnySortGivesSameResult` shows the compacted result does not
  depend on which one.
- The shared `hit` sentinels are modelled as a flag per node (dense trie) or
  an empty child under key 0 (sparse trie). Their pointer identity is not
  modelled.
- Slice aliasing is not modelled: results are values. `append(child, letter)`
  could share backing arrays, and the caller's buffer is mutated in place.
  The in-place buffer handling of the correct consuming search is modelled
  separately, on an array (`MapTrieCore.PermuteInnerConsumeInPlace`).
- MapTrieCore.LoadContains: words containing byte 0 are excluded by a
  precondition. In maptrie/trie.go such a word collides with the end-of-word
  key and can write into the shared `hit` map.
- MapTrie.Load: the precondition excludes words containing byte 0, for the
  same reason.
- MapTrie.LoadString: only ASCII strings without the NUL character are
  modelled.
- ArrayTrie.LoadString: only ASCII strings are modelled, one byte per
  character. Go converts a string to its UTF-8 bytes.
- MapTrie.ContainsString: only ASCII strings are modelled, one byte per
  character. Go accepts any string and looks up its UTF-8 bytes.
- ArrayTrie.ContainsString: only ASCII strings are modelled, for the same
  reason.
- The count of maptrie/map_trie.go is an unbounded `nat`. Go's `int` could
  overflow after 2^63 loads.
- The methods of arraytrie/trie.go on the `Trie` wrapper (lines 37-48) are
  not modelled. They refer to a field the array type does not have and do
  not compile. The stale package-level API used by
  maptrie/map_trie_test.go is not modelled either: its cases are stated on
  the exported methods instead (`TrieTests.MapEmpty`, `TrieTests.MapFull`).
- ArrayTrieCore.PermuteInnerSound: no completeness is claimed for consuming
  mode, because the search as written is not complete (see Findings).
  Soundness and the buffer being a permutation are proved.
- TrieTests.ArrayCoreFulxd: only the unlimited case of trie/trie_test.go is
  restated for arraytrie/trie.go. Its search test builds `maptrie.New()`
  only. The consuming cases are not restated for the dense variant.

## Findings

| source | as written | input that shows it | evidently intended | confidence | as-written member | corrected member |
|---|---|---|---|---|---|---|
| arraytrie/trie.go:87-99 | in consuming mode the chosen letter is swapped to the front of the shared buffer and never swapped back; the recursive call scrambles the rest the same way, so later iterations of the loop read the wrong letters | words {"bc", "c"}, letters "abc", consuming: only "bc" is returned, "c" is missed, and the buffer is left as "bca" | swap the letter back after each child search, as maptrie/trie.go:98-99 does, so every contained word spellable from the letters is found | not executed | `ArrayTrieCore.ConsumeMissesWord` | `ArrayTrieCore.PermuteAllRestoringExact` |
