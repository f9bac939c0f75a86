/** The search of arraytrie/trie.go over the dense 257-slot trie, with the
    `consume` flag. Its `load` and `contains` are line for line those of
    arraytrie/array_trie.go and are not repeated: they are `ArrayTrie.Load`
    and `ArrayTrie.Contains`.

    In consuming mode the Go code swaps the chosen letter to the front of the
    shared buffer and never swaps it back, and the recursive call scrambles
    the rest of the buffer the same way; later iterations of the letter loop
    read the scrambled buffer. A search is therefore modelled as a `Run`: the
    paths it found and the buffer contents it leaves behind. */
module ArrayTrieCore {
  import opened Bytes
  import opened TrieHelper
  import ArrayTrie

  /** The outcome of a search: the raw (reversed) paths found, and the letter
      buffer as the search leaves it. */
  datatype Run = Run(found: seq<Word>, letters: Word)

  /** One step of a search path: every sub-path found below the slot of
      `letter`, with `letter` appended, is a path found at `at` that is
      spellable from the buffer `buf` the step started from. In consuming mode
      the sub-search was given the buffer without that letter. */
  lemma ExtendAllSpellable(at: ArrayTrie.Trie, sub: seq<Word>, letter: byte, buf: Word, next: Word, consume: bool)
    requires ArrayTrie.Valid(at) && at.Node?
    requires consume ==> multiset(next) + multiset{letter} == multiset(buf)
    requires !consume ==> next == buf && letter in buf
    requires forall p :: p in sub ==> ArrayTrie.Contains(at.kids[letter as int], Reverse(p)) && Spellable(p, next, consume)
    ensures forall p :: p in AppendToEach(sub, letter) ==> ArrayTrie.Contains(at, Reverse(p)) && Spellable(p, buf, consume)
  {
    forall p | p in AppendToEach(sub, letter)
      ensures ArrayTrie.Contains(at, Reverse(p)) && Spellable(p, buf, consume)
    {
      var k :| 0 <= k < |sub| && p == sub[k] + [letter];
      assert sub[k] in sub;
      ArrayTrie.ExtendPath(at, sub[k], letter);
      if consume {
        assert multiset(p) == multiset(sub[k]) + multiset{letter};
      }
    }
  }

  /** `permuteInner`: nil gives nothing (and an untouched buffer); otherwise
      the empty path if slot 256 is set, then the letter loop. Unlike
      arraytrie/array_trie.go there is no early exit on an empty buffer.
      The buffer comes back permuted, and untouched when nothing is
      consumed. */
  function PermuteInner(at: ArrayTrie.Trie, letters: Word, consume: bool): (r: Run)
    requires ArrayTrie.Valid(at)
    ensures multiset(r.letters) == multiset(letters) && |r.letters| == |letters|
    ensures !consume ==> r.letters == letters
    decreases at, 1
  {
    if at.Nil? then Run([], letters)
    else
      var rest := PermuteFrom(at, letters, consume, 0);
      Run((if at.hit then [[]] else []) + rest.found, rest.letters)
  }

  /** Iterations `i..` of the letter loop, starting from buffer contents `buf`.
      Iteration `i` reads `buf[i]`; if that slot has a child it (in consuming
      mode) swaps positions 0 and `i`, searches the child with the buffer
      past position 0, and hands the buffer as the child left it to the next
      iteration. */
  function PermuteFrom(at: ArrayTrie.Trie, buf: Word, consume: bool, i: nat): (r: Run)
    requires ArrayTrie.Valid(at) && at.Node? && i <= |buf|
    ensures multiset(r.letters) == multiset(buf) && |r.letters| == |buf|
    ensures !consume ==> r.letters == buf
    decreases at, 0, |buf| - i
  {
    if i == |buf| then Run([], buf)
    else
      var letter := buf[i];
      if at.kids[letter as int].Nil? then PermuteFrom(at, buf, consume, i + 1)
      else
        var swapped := if consume then Swap(buf, 0, i) else buf;
        var next := if consume then swapped[1..] else buf;
        var sub := PermuteInner(at.kids[letter as int], next, consume);
        var after := if consume then [swapped[0]] + sub.letters else buf;
        SwapMultiset(buf, 0, i);
        assert consume ==> swapped == [swapped[0]] + next;
        var rest := PermuteFrom(at, after, consume, i + 1);
        Run(AppendToEach(sub.found, letter) + rest.found, rest.letters)
  }

  /** Soundness of the search as written: every path found is in the trie
      and spellable from the buffer as it was on entry. */
  lemma {:induction false} PermuteInnerSound(at: ArrayTrie.Trie, letters: Word, consume: bool)
    requires ArrayTrie.Valid(at)
    ensures forall p :: p in PermuteInner(at, letters, consume).found ==>
      ArrayTrie.Contains(at, Reverse(p)) && Spellable(p, letters, consume)
    decreases at, 1, 0, 0
  {
    if at.Node? {
      PermuteFromSound(at, letters, consume, 0);
    }
  }

  /** The same for iterations `i..`, with respect to the buffer `buf` the
      iteration `i` starts from, although later iterations see it scrambled. */
  lemma {:induction false} PermuteFromSound(at: ArrayTrie.Trie, buf: Word, consume: bool, i: nat)
    requires ArrayTrie.Valid(at) && at.Node? && i <= |buf|
    ensures forall p :: p in PermuteFrom(at, buf, consume, i).found ==>
      ArrayTrie.Contains(at, Reverse(p)) && Spellable(p, buf, consume)
    decreases at, 0, |buf| - i, 1
  {
    if i < |buf| {
      if at.kids[buf[i] as int].Nil? {
        PermuteFromSound(at, buf, consume, i + 1);
        FromSkipSound(at, buf, consume, i);
      } else {
        FromTakeSound(at, buf, consume, i);
      }
    }
  }

  /** The same when iteration `i` descends into its letter's child. */
  lemma {:induction false} FromTakeSound(at: ArrayTrie.Trie, buf: Word, consume: bool, i: nat)
    requires ArrayTrie.Valid(at) && at.Node? && i < |buf| && at.kids[buf[i] as int].Node?
    ensures forall p :: p in PermuteFrom(at, buf, consume, i).found ==>
      ArrayTrie.Contains(at, Reverse(p)) && Spellable(p, buf, consume)
    decreases at, 0, |buf| - i, 0
  {
    var letter := buf[i];
    var swapped := if consume then Swap(buf, 0, i) else buf;
    var next := if consume then swapped[1..] else buf;
    var sub := PermuteInner(at.kids[letter as int], next, consume);
    var after := if consume then [swapped[0]] + sub.letters else buf;
    PermuteInnerSound(at.kids[letter as int], next, consume);
    PermuteFromSound(at, after, consume, i + 1);
    FromStepSound(at, buf, consume, i, next, sub, after);
  }

  /** An iteration whose letter has no child adds nothing and leaves the
      buffer alone. */
  lemma FromSkipSound(at: ArrayTrie.Trie, buf: Word, consume: bool, i: nat)
    requires ArrayTrie.Valid(at) && at.Node? && i < |buf| && at.kids[buf[i] as int].Nil?
    requires forall p :: p in PermuteFrom(at, buf, consume, i + 1).found ==>
      ArrayTrie.Contains(at, Reverse(p)) && Spellable(p, buf, consume)
    ensures forall p :: p in PermuteFrom(at, buf, consume, i).found ==>
      ArrayTrie.Contains(at, Reverse(p)) && Spellable(p, buf, consume)
  {
    assert PermuteFrom(at, buf, consume, i) == PermuteFrom(at, buf, consume, i + 1);
  }

  /** One iteration that descends: the paths of the child search, extended by
      the letter, and the paths of the later iterations, which start from the
      buffer the child left, are all spellable from the buffer `buf`. */
  lemma FromStepSound(at: ArrayTrie.Trie, buf: Word, consume: bool, i: nat, next: Word, sub: Run, after: Word)
    requires ArrayTrie.Valid(at) && at.Node? && i < |buf| && at.kids[buf[i] as int].Node?
    requires next == if consume then Swap(buf, 0, i)[1..] else buf
    requires sub == PermuteInner(at.kids[buf[i] as int], next, consume)
    requires after == if consume then [Swap(buf, 0, i)[0]] + sub.letters else buf
    requires forall p :: p in sub.found ==>
      ArrayTrie.Contains(at.kids[buf[i] as int], Reverse(p)) && Spellable(p, next, consume)
    requires forall p :: p in PermuteFrom(at, after, consume, i + 1).found ==>
      ArrayTrie.Contains(at, Reverse(p)) && Spellable(p, after, consume)
    ensures forall p :: p in PermuteFrom(at, buf, consume, i).found ==>
      ArrayTrie.Contains(at, Reverse(p)) && Spellable(p, buf, consume)
  {
    var letter := buf[i];
    var rest := PermuteFrom(at, after, consume, i + 1);
    assert PermuteFrom(at, buf, consume, i) == Run(AppendToEach(sub.found, letter) + rest.found, rest.letters);
    if consume {
      SwapLetters(buf, i, sub.letters);
    }
    ExtendAllSpellable(at, sub.found, letter, buf, next, consume);
    SpellableRest(rest.found, after, buf, consume);
  }

  /** Swapping `buf[i]` to the front and handing on the rest splits the
      letters into that one and the rest; putting it back in front of any
      rearrangement of the rest gives the letters again. */
  lemma SwapLetters(buf: Word, i: nat, left: Word)
    requires i < |buf| && multiset(left) == multiset(Swap(buf, 0, i)[1..])
    ensures multiset(Swap(buf, 0, i)[1..]) + multiset{buf[i]} == multiset(buf)
    ensures multiset([Swap(buf, 0, i)[0]] + left) == multiset(buf)
  {
    var swapped := Swap(buf, 0, i);
    SwapMultiset(buf, 0, i);
    assert swapped == [swapped[0]] + swapped[1..];
  }

  lemma SpellableRest(found: seq<Word>, after: Word, buf: Word, consume: bool)
    requires multiset(after) == multiset(buf)
    ensures forall p :: p in found && Spellable(p, after, consume) ==> Spellable(p, buf, consume)
  {
    forall p | p in found && Spellable(p, after, consume)
      ensures Spellable(p, buf, consume)
    {
      SpellableSameLetters(p, after, buf, consume);
    }
  }

  /** The base cases: a nil node finds nothing and leaves the buffer alone;
      a node whose slot 256 is set contributes the empty path first. */
  lemma PermuteInnerBase(at: ArrayTrie.Trie, letters: Word, consume: bool)
    requires ArrayTrie.Valid(at)
    ensures at.Nil? ==> PermuteInner(at, letters, consume) == Run([], letters)
    ensures at.Node? && at.hit ==> |PermuteInner(at, letters, consume).found| > 0 && PermuteInner(at, letters, consume).found[0] == []
    ensures at.Node? && !at.hit ==> [] !in PermuteInner(at, letters, consume).found
  {
    PermuteInnerSound(at, letters, consume);
    assert Reverse([]) == [];
  }

  /** `permuteAll`: reverse every raw path, then sort and drop duplicates.
      The result is strictly ascending and every word in it is loaded and
      spellable from the letters under the selected policy. */
  function PermuteAll(at: ArrayTrie.Trie, letters: Word, consume: bool): (r: seq<Word>)
    requires ArrayTrie.Valid(at)
    ensures StrictlySorted(r)
    ensures forall w :: w in r ==> ArrayTrie.Contains(at, w) && Spellable(w, letters, consume)
  {
    var raw := PermuteInner(at, letters, consume).found;
    var words := ReverseAll(raw);
    PermuteInnerSound(at, letters, consume);
    forall w | w in words
      ensures ArrayTrie.Contains(at, w) && Spellable(w, letters, consume)
    {
      var k :| 0 <= k < |raw| && w == Reverse(raw[k]);
      assert raw[k] in raw;
      ReverseSpellable(raw[k], letters, consume);
    }
    Uniqueify(words)
  }

  // ---------------------------------------------------------------------------
  // Unlimited mode: the same raw paths as arraytrie/array_trie.go

  lemma {:induction false} UnlimitedFromAgrees(at: ArrayTrie.Trie, letters: Word, i: nat)
    requires ArrayTrie.Valid(at) && at.Node? && i <= |letters| && |letters| > 0
    ensures PermuteFrom(at, letters, false, i).found == ArrayTrie.PermuteFrom(at, letters, i)
    decreases at, 0, |letters| - i
  {
    if i < |letters| {
      var letter := letters[i];
      UnlimitedFromAgrees(at, letters, i + 1);
      if at.kids[letter as int].Node? {
        UnlimitedAgrees(at.kids[letter as int], letters);
      }
    }
  }

  /** For a non-empty buffer the unlimited search finds the same raw paths,
      in the same order, as the search of arraytrie/array_trie.go. */
  lemma {:induction false} UnlimitedAgrees(at: ArrayTrie.Trie, letters: Word)
    requires ArrayTrie.Valid(at) && |letters| > 0
    ensures PermuteInner(at, letters, false).found == ArrayTrie.PermuteInner(at, letters)
    decreases at, 1
  {
    if at.Node? {
      UnlimitedFromAgrees(at, letters, 0);
    }
  }

  /** Unlimited mode is exact: a word is returned iff it is loaded and every
      byte of it occurs among the letters. With an empty buffer this finds a
      loaded "" (where arraytrie/array_trie.go finds nothing). */
  lemma PermuteAllUnlimitedExact(at: ArrayTrie.Trie, letters: Word, w: Word)
    requires ArrayTrie.Valid(at)
    ensures w in PermuteAll(at, letters, false) <==> ArrayTrie.Contains(at, w) && UsesOnly(w, letters)
  {
    var raw := PermuteInner(at, letters, false).found;
    if ArrayTrie.Contains(at, w) && UsesOnly(w, letters) {
      if |letters| > 0 {
        UnlimitedAgrees(at, letters);
        ArrayTrie.PermuteAllExact(at, letters, w);
        var k :| 0 <= k < |raw| && ReverseAll(raw)[k] == w;
        assert ReverseAll(raw)[k] in ReverseAll(raw);
      } else {
        assert w == [];
        assert raw == [[]] + PermuteFrom(at, letters, false, 0).found;
        assert ReverseAll(raw)[0] == w;
      }
    }
  }

  // ---------------------------------------------------------------------------
  // Consuming mode as written: the buffer is never restored

  /** The dictionary {"bc", "c"} as arraytrie's `load` builds it. */
  function BcC(): ArrayTrie.Trie {
    ArrayTrie.Load(ArrayTrie.Load(ArrayTrie.Nil, [98, 99]), [99])
  }

  /** The part of a trie the consuming search for "abc" walks through: no
      child under 'a' anywhere on the walk, "" and "b" are not words, "bc" is. */
  ghost predicate WalkShape(at: ArrayTrie.Trie) {
    && ArrayTrie.Valid(at) && at.Node? && !at.hit && at.kids[97].Nil?
    && var nb := at.kids[98];
      && ArrayTrie.Valid(nb) && nb.Node? && !nb.hit && nb.kids[97].Nil?
      && var leaf := nb.kids[99];
        ArrayTrie.Valid(leaf) && leaf.Node? && leaf.hit && leaf.kids[97].Nil?
  }

  /** {"bc", "c"} has that shape, and contains "c". */
  lemma BcCShape()
    ensures WalkShape(BcC()) && ArrayTrie.Contains(BcC(), [99])
  {
    var e := ArrayTrie.Empty();
    var nbc := ArrayTrie.Load(ArrayTrie.Nil, [98, 99]);
    assert nbc == ArrayTrie.Load(e, [98, 99]);
    var nb := nbc.kids[98];
    assert nb == ArrayTrie.Load(e, [99]);
    assert nb.kids[99] == ArrayTrie.Load(e, []);
    assert BcC().kids[98] == nb;
    ArrayTrie.LoadContains(nbc, [99], [99]);
  }

  /** Taking 'b' from "abc": "bac", and "ac" handed on. */
  lemma SwapAB()
    ensures Swap([97, 98, 99], 0, 1) == [98, 97, 99]
    ensures Swap([97, 98, 99], 0, 1)[1..] == [97, 99]
    ensures [Swap([97, 98, 99], 0, 1)[0]] + [99, 97] == [98, 99, 97]
  {
  }

  /** Taking 'c' from "ac": "ca", and "a" handed on. */
  lemma SwapAC()
    ensures Swap([97, 99], 0, 1) == [99, 97]
    ensures Swap([97, 99], 0, 1)[1..] == [97]
  {
  }

  /** Below "b" with the buffer "ac": 'a' has no child, 'c' is swapped to the
      front and consumed, "bc" is found, and the buffer is left as "ca". */
  lemma BelowB(at: ArrayTrie.Trie)
    requires WalkShape(at)
    ensures PermuteInner(at.kids[98], [97, 99], true) == Run([[99]], [99, 97])
  {
    var nb := at.kids[98];
    var leaf := nb.kids[99];
    assert PermuteFrom(leaf, [97], true, 1) == Run([], [97]);
    assert PermuteFrom(leaf, [97], true, 0) == Run([], [97]);
    assert PermuteInner(leaf, [97], true) == Run([[]], [97]);
    assert PermuteFrom(nb, [99, 97], true, 2) == Run([], [99, 97]);
    SwapAC();
    assert AppendToEach([[]], 99)[0] == [99];
    assert PermuteFrom(nb, [97, 99], true, 1) == Run([[99]], [99, 97]);
    assert PermuteFrom(nb, [97, 99], true, 0) == Run([[99]], [99, 97]);
  }

  /** The consuming search at the root for "abc" finds only the path of "bc"
      and leaves the buffer as "bca". */
  lemma RootRun(at: ArrayTrie.Trie)
    requires WalkShape(at)
    ensures PermuteInner(at, [97, 98, 99], true) == Run([[99, 98]], [98, 99, 97])
  {
    RootStepB(at);
    assert PermuteFrom(at, [97, 98, 99], true, 0) == Run([[99, 98]], [98, 99, 97]);
  }

  /** After the 'b' step the loop reads 'a' at position 2, and the root has
      no child for it. */
  lemma RootTail(at: ArrayTrie.Trie)
    requires WalkShape(at)
    ensures PermuteFrom(at, [98, 99, 97], true, 2) == Run([], [98, 99, 97])
  {
    assert PermuteFrom(at, [98, 99, 97], true, 3) == Run([], [98, 99, 97]);
  }

  /** The root's iteration for 'b' and all after it. */
  lemma RootStepB(at: ArrayTrie.Trie)
    requires WalkShape(at)
    ensures PermuteFrom(at, [97, 98, 99], true, 1) == Run([[99, 98]], [98, 99, 97])
  {
    BelowB(at);
    RootTail(at);
    SwapAB();
    assert AppendToEach([[99]], 98)[0] == [99, 98];
    assert AppendToEach([[99]], 98) == [[99, 98]];
  }

  /** The normalised result of that search: only "bc". */
  lemma RootPermuteAll(at: ArrayTrie.Trie)
    requires WalkShape(at)
    ensures PermuteAll(at, [97, 98, 99], true) == [[98, 99]]
  {
    RootRun(at);
    NormaliseBc();
    assert PermuteAll(at, [97, 98, 99], true) == Uniqueify(ReverseAll([[99, 98]]));
  }

  /** The single raw path "cb", reversed and normalised, is the list ["bc"]. */
  lemma NormaliseBc()
    ensures Uniqueify(ReverseAll([[99, 98]])) == [[98, 99]]
  {
    var path: Word := [99, 98];
    assert Reverse(path)[0] == 98 && Reverse(path)[1] == 99;
    assert Reverse(path) == [98, 99];
    assert ReverseAll([path])[0] == Reverse(path);
    assert ReverseAll([path]) == [[98, 99]];
    var r := Uniqueify([[98, 99]]);
    assert [98, 99] in r;
  }

  /** With "bc" and "c" loaded and the letters "abc", the consuming search
      returns only "bc". Taking `b` swaps it to the front ("bac"), the search
      below `b` consumes `c` and leaves its part of the buffer as "ca", so the
      loop reads 'a' at position 2 instead of 'c' and never tries the word
      "c", although it is loaded and spellable. The buffer ends as "bca". */
  lemma ConsumeMissesWord()
    ensures ArrayTrie.Valid(BcC())
    ensures ArrayTrie.Contains(BcC(), [99]) && Consumes([99], [97, 98, 99])
    ensures PermuteAll(BcC(), [97, 98, 99], true) == [[98, 99]]
    ensures PermuteInner(BcC(), [97, 98, 99], true).letters == [98, 99, 97]
  {
    BcCShape();
    WalkMissesC(BcC());
  }

  /** The same for every trie with the walked shape that contains "c". */
  lemma WalkMissesC(at: ArrayTrie.Trie)
    requires WalkShape(at) && ArrayTrie.Contains(at, [99])
    ensures Consumes([99], [97, 98, 99])
    ensures PermuteAll(at, [97, 98, 99], true) == [[98, 99]]
    ensures PermuteInner(at, [97, 98, 99], true).letters == [98, 99, 97]
  {
    RootRun(at);
    RootPermuteAll(at);
    ConsumesC();
  }

  /** "c" can be spelled from "abc" using each letter at most once. */
  lemma ConsumesC()
    ensures Consumes([99], [97, 98, 99])
  {
    var letters: Word := [97, 98, 99];
    assert letters == [97, 98] + [99];
  }

  // ---------------------------------------------------------------------------
  // Consuming mode corrected: swap the letter back after each child search

  /** The search with the swap undone after every child search (as
      maptrie/trie.go does), so each iteration sees the buffer it was given.
      The buffer is then the same on exit as on entry, so only the paths are
      returned. */
  function PermuteInnerRestoring(at: ArrayTrie.Trie, letters: Word, consume: bool): seq<Word>
    requires ArrayTrie.Valid(at)
    decreases at, 1
  {
    if at.Nil? then []
    else (if at.hit then [[]] else []) + PermuteFromRestoring(at, letters, consume, 0)
  }

  function PermuteFromRestoring(at: ArrayTrie.Trie, letters: Word, consume: bool, i: nat): seq<Word>
    requires ArrayTrie.Valid(at) && at.Node? && i <= |letters|
    decreases at, 0, |letters| - i
  {
    if i == |letters| then []
    else
      var letter := letters[i];
      var rest := PermuteFromRestoring(at, letters, consume, i + 1);
      if at.kids[letter as int].Nil? then rest
      else
        var swapped := if consume then Swap(letters, 0, i) else letters;
        var next := if consume then swapped[1..] else letters;
        AppendToEach(PermuteInnerRestoring(at.kids[letter as int], next, consume), letter) + rest
  }

  /** Soundness of the corrected search: every path found is in the trie and
      spellable from the letters. */
  lemma {:induction false} RestoringSound(at: ArrayTrie.Trie, letters: Word, consume: bool)
    requires ArrayTrie.Valid(at)
    ensures forall p :: p in PermuteInnerRestoring(at, letters, consume) ==>
      ArrayTrie.Contains(at, Reverse(p)) && Spellable(p, letters, consume)
    decreases at, 1
  {
    if at.Node? {
      RestoringFromSound(at, letters, consume, 0);
    }
  }

  lemma {:induction false} RestoringFromSound(at: ArrayTrie.Trie, letters: Word, consume: bool, i: nat)
    requires ArrayTrie.Valid(at) && at.Node? && i <= |letters|
    ensures forall p :: p in PermuteFromRestoring(at, letters, consume, i) ==>
      ArrayTrie.Contains(at, Reverse(p)) && Spellable(p, letters, consume)
    decreases at, 0, |letters| - i
  {
    if i < |letters| {
      var letter := letters[i];
      var rest := PermuteFromRestoring(at, letters, consume, i + 1);
      RestoringFromSound(at, letters, consume, i + 1);
      if at.kids[letter as int].Node? {
        var swapped := if consume then Swap(letters, 0, i) else letters;
        var next := if consume then swapped[1..] else letters;
        var sub := PermuteInnerRestoring(at.kids[letter as int], next, consume);
        assert PermuteFromRestoring(at, letters, consume, i) == AppendToEach(sub, letter) + rest;
        RestoringSound(at.kids[letter as int], next, consume);
        SwapMultiset(letters, 0, i);
        assert consume ==> swapped == [swapped[0]] + next;
        ExtendAllSpellable(at, sub, letter, letters, next, consume);
      }
    }
  }

  /** `permuteAll` over the restoring search. */
  function PermuteAllRestoring(at: ArrayTrie.Trie, letters: Word, consume: bool): (r: seq<Word>)
    requires ArrayTrie.Valid(at)
    ensures StrictlySorted(r)
    ensures forall w :: w in r ==> ArrayTrie.Contains(at, w) && Spellable(w, letters, consume)
  {
    var raw := PermuteInnerRestoring(at, letters, consume);
    var words := ReverseAll(raw);
    RestoringSound(at, letters, consume);
    forall w | w in words
      ensures ArrayTrie.Contains(at, w) && Spellable(w, letters, consume)
    {
      var k :| 0 <= k < |raw| && w == Reverse(raw[k]);
      assert raw[k] in raw;
      ReverseSpellable(raw[k], letters, consume);
    }
    Uniqueify(words)
  }

  lemma {:induction false} RestoringFromHas(at: ArrayTrie.Trie, letters: Word, consume: bool, j: nat, i: nat, p: Word)
    requires ArrayTrie.Valid(at) && at.Node? && j <= i < |letters|
    requires at.kids[letters[i] as int].Node?
    requires var next := if consume then Swap(letters, 0, i)[1..] else letters;
      p in AppendToEach(PermuteInnerRestoring(at.kids[letters[i] as int], next, consume), letters[i])
    ensures p in PermuteFromRestoring(at, letters, consume, j)
    decreases i - j
  {
    var letter := letters[j];
    var next := if consume then Swap(letters, 0, j)[1..] else letters;
    var here: seq<Word> := if at.kids[letter as int].Nil? then [] else AppendToEach(PermuteInnerRestoring(at.kids[letter as int], next, consume), letter);
    assert PermuteFromRestoring(at, letters, consume, j) == here + PermuteFromRestoring(at, letters, consume, j + 1);
    if j < i {
      RestoringFromHas(at, letters, consume, j + 1, i, p);
    }
  }

  /** Completeness of the corrected search: every loaded word spellable from
      the letters is found, as its reversed path. */
  lemma {:induction false} RestoringComplete(at: ArrayTrie.Trie, letters: Word, consume: bool, w: Word)
    requires ArrayTrie.Valid(at) && ArrayTrie.Contains(at, w) && Spellable(w, letters, consume)
    ensures Reverse(w) in PermuteInnerRestoring(at, letters, consume)
    decreases |w|
  {
    if |w| > 0 {
      var c := w[0];
      var child := at.kids[c as int];
      var i :| 0 <= i < |letters| && letters[i] == c by {
        if consume {
          assert c in multiset(w);
        }
        assert c in letters;
      }
      var next := if consume then Swap(letters, 0, i)[1..] else letters;
      if consume {
        ConsumesTail(w, letters, i);
      }
      RestoringComplete(child, next, consume, w[1..]);
      var sub := PermuteInnerRestoring(child, next, consume);
      var k :| 0 <= k < |sub| && sub[k] == Reverse(w[1..]);
      assert Reverse(w) == Reverse(w[1..]) + [c];
      assert AppendToEach(sub, c)[k] == sub[k] + [c];
      RestoringFromHas(at, letters, consume, 0, i, Reverse(w));
    }
  }

  /** The corrected search is exact in both modes: a word is returned iff it
      is loaded and spellable from the letters under the selected policy. In
      the example of `ConsumeMissesWord` it does return "c". */
  lemma PermuteAllRestoringExact(at: ArrayTrie.Trie, letters: Word, consume: bool, w: Word)
    requires ArrayTrie.Valid(at)
    ensures w in PermuteAllRestoring(at, letters, consume) <==> ArrayTrie.Contains(at, w) && Spellable(w, letters, consume)
  {
    if ArrayTrie.Contains(at, w) && Spellable(w, letters, consume) {
      var raw := PermuteInnerRestoring(at, letters, consume);
      RestoringComplete(at, letters, consume, w);
      var k :| 0 <= k < |raw| && raw[k] == Reverse(w);
      ReverseInvolution(w);
      assert ReverseAll(raw)[k] == w;
    }
  }

  lemma {:induction false} RestoringFromAgrees(at: ArrayTrie.Trie, letters: Word, i: nat)
    requires ArrayTrie.Valid(at) && at.Node? && i <= |letters|
    ensures PermuteFromRestoring(at, letters, false, i) == PermuteFrom(at, letters, false, i).found
    decreases at, 0, |letters| - i
  {
    if i < |letters| {
      var letter := letters[i];
      RestoringFromAgrees(at, letters, i + 1);
      if at.kids[letter as int].Node? {
        RestoringAgrees(at.kids[letter as int], letters);
      }
    }
  }

  /** The correction changes nothing in unlimited mode, where the code as
      written never writes the buffer. */
  lemma {:induction false} RestoringAgrees(at: ArrayTrie.Trie, letters: Word)
    requires ArrayTrie.Valid(at)
    ensures PermuteInnerRestoring(at, letters, false) == PermuteInner(at, letters, false).found
    decreases at, 1
  {
    if at.Node? {
      RestoringFromAgrees(at, letters, 0);
    }
  }

  /** The corrected search finds the word the code as written misses. */
  lemma RestoringFindsWord()
    ensures ArrayTrie.Valid(BcC())
    ensures [99] in PermuteAllRestoring(BcC(), [97, 98, 99], true)
    ensures [99] !in PermuteAll(BcC(), [97, 98, 99], true)
  {
    BcCShape();
    WalkMissesC(BcC());
    RestoringFindsC(BcC());
  }

  /** In any trie that contains "c", the corrected search for "abc" finds it. */
  lemma RestoringFindsC(at: ArrayTrie.Trie)
    requires ArrayTrie.Valid(at) && ArrayTrie.Contains(at, [99])
    ensures [99] in PermuteAllRestoring(at, [97, 98, 99], true)
  {
    ConsumesC();
    PermuteAllRestoringExact(at, [97, 98, 99], true, [99]);
  }
}
