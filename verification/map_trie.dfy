/** The exported sparse trie of maptrie/map_trie.go: the node tree of
    maptrie/trie.go plus a count of `Load` calls. */
module MapTrie {
  import opened Bytes
  import TrieHelper
  import MapTrieCore

  /** Go `*Trie`: `NilTrie` is the nil pointer; otherwise the `trie` and `count` fields. */
  datatype Trie = NilTrie | Trie(trie: MapTrieCore.Trie, count: nat)

  /** Every trie reachable through `New` and `Load` has this shape. */
  ghost predicate Valid(m: Trie) {
    m.NilTrie? || MapTrieCore.Wf(m.trie)
  }

  /** `Contains`: false on a nil receiver, otherwise the tree's membership:
      the word's path leads to a node where a word ends. */
  function Contains(m: Trie, word: Word): (r: bool)
    ensures r <==> m.Trie? && MapTrieCore.Ends(MapTrieCore.Descend(m.trie, word))
  {
    if m.NilTrie? then false else MapTrieCore.Contains(m.trie, word)
  }

  /** `ContainsString`: membership of the string's bytes. */
  function ContainsString(m: Trie, word: string): (r: bool)
    requires AsciiText(word)
    ensures r <==> m.Trie? && MapTrieCore.Ends(MapTrieCore.Descend(m.trie, Ascii(word)))
  {
    Contains(m, Ascii(word))
  }

  /** `New`: an empty, non-nil tree and a zero count. Nothing is contained,
      not even the empty word. */
  function New(): (r: Trie)
    ensures r.Trie? && Valid(r) && r.count == 0
    ensures forall w :: !Contains(r, w)
  {
    var r := Trie(MapTrieCore.Node(map[]), 0);
    assert forall w :: !Contains(r, w) by {
      forall w ensures !Contains(r, w) {
        if |w| > 0 {
          assert MapTrieCore.Child(r.trie, w[0]) == MapTrieCore.Nil;
          assert !MapTrieCore.Contains(MapTrieCore.Nil, w[1..]);
        }
      }
    }
    r
  }

  /** `Load`: insert the word, bump the count, report success. Afterwards the
      contained words are the old ones plus `word`; reloading a word changes
      no membership. */
  function Load(m: Trie, word: Word): (r: (Trie, bool))
    requires m.Trie? && Valid(m) && ZeroFree(word)
    ensures r.1
    ensures r.0.Trie? && Valid(r.0) && r.0.count == m.count + 1
    ensures forall v :: Contains(r.0, v) <==> Contains(m, v) || v == word
  {
    var r := Trie(MapTrieCore.Load(m.trie, word), m.count + 1);
    MapTrieCore.LoadWf(m.trie, word);
    assert forall v :: Contains(r, v) <==> Contains(m, v) || v == word by {
      forall v ensures Contains(r, v) <==> Contains(m, v) || v == word {
        MapTrieCore.LoadContains(m.trie, word, v);
      }
    }
    (r, true)
  }

  /** `LoadString`: `Load` of the string's bytes. Afterwards the contained
      strings are the old ones plus `word`. */
  function LoadString(m: Trie, word: string): (r: (Trie, bool))
    requires m.Trie? && Valid(m)
    requires forall i :: 0 <= i < |word| ==> 0 < word[i] as int < 128
    ensures r.1 && r.0.Trie? && Valid(r.0) && r.0.count == m.count + 1
    ensures forall v :: AsciiText(v) ==> (ContainsString(r.0, v) <==> ContainsString(m, v) || v == word)
  {
    var r := Load(m, Ascii(word));
    forall v | AsciiText(v)
      ensures ContainsString(r.0, v) <==> ContainsString(m, v) || v == word
    {
      if Ascii(v) == Ascii(word) {
        AsciiInjective(v, word);
      }
    }
    r
  }

  /** `Count`: the number of `Load` calls so far, never negative and 0 for a
      new trie (`LoadAll` states how it grows). */
  function Count(m: Trie): (r: int)
    requires m.Trie?
    ensures r >= 0
    ensures m == New() ==> r == 0
  {
    m.count
  }

  /** The dictionary loader's sequence of `Load` calls, one word at a time.
      The count goes up once per call, duplicates included, while membership
      is exactly the set of loaded words. */
  function LoadAll(m: Trie, words: seq<Word>): (r: Trie)
    requires m.Trie? && Valid(m)
    requires forall k :: 0 <= k < |words| ==> ZeroFree(words[k])
    ensures r.Trie? && Valid(r)
    ensures Count(r) == Count(m) + |words|
    ensures forall v :: Contains(r, v) <==> Contains(m, v) || v in words
    decreases |words|
  {
    if words == [] then m
    else LoadAll(Load(m, words[0]).0, words[1..])
  }

  /** `PermuteAll` as a value: sorted, duplicate-free, and every result is a
      contained word spellable from the letters. */
  function PermuteAll(m: Trie, letters: Word, consume: bool): (r: seq<Word>)
    requires m.Trie?
    ensures TrieHelper.StrictlySorted(r)
    ensures forall w :: w in r ==> Contains(m, w) && Spellable(w, letters, consume)
  {
    MapTrieCore.PermuteAll(m.trie, letters, consume)
  }

  /** Nothing spellable and contained is missed. */
  lemma PermuteAllComplete(m: Trie, letters: Word, consume: bool, w: Word)
    requires m.Trie? && Valid(m)
    requires Contains(m, w) && Spellable(w, letters, consume)
    ensures w in PermuteAll(m, letters, consume)
  {
    MapTrieCore.PermuteAllExact(m.trie, letters, consume, w);
  }

  /** After loading a word list into a new trie, `PermuteAll` is determined:
      it is the ascending list, without repeats, of the loaded words that are
      spellable from the letters. */
  lemma PermuteAllOfLoaded(words: seq<Word>, letters: Word, consume: bool, expected: seq<Word>)
    requires forall k :: 0 <= k < |words| ==> ZeroFree(words[k])
    requires TrieHelper.StrictlySorted(expected)
    requires forall w :: w in expected <==> w in words && Spellable(w, letters, consume)
    ensures PermuteAll(LoadAll(New(), words), letters, consume) == expected
  {
    var m := LoadAll(New(), words);
    var r := PermuteAll(m, letters, consume);
    forall w
      ensures w in r <==> w in expected
    {
      if w in expected {
        PermuteAllComplete(m, letters, consume, w);
      }
    }
    TrieHelper.StrictlySortedUnique(r, expected);
  }

  /** `PermuteAll` on the caller's byte buffer, which it passes on uncopied;
      the buffer is unchanged on return in both modes. */
  method PermuteAllOnBuffer(m: Trie, letters: array<byte>, consume: bool) returns (r: seq<Word>)
    requires m.Trie?
    modifies letters
    ensures letters[..] == old(letters[..])
    ensures r == PermuteAll(m, old(letters[..]), consume)
  {
    r := MapTrieCore.PermuteAllInPlace(m.trie, letters, consume);
  }
}
