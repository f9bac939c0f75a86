/** The sparse trie of maptrie/trie.go: a node is a byte-keyed map of children,
    and key 0 doubles as the "a word ends here" marker. */
module MapTrieCore {
  import opened Bytes
  import TrieHelper

  /** Go `trie` (`map[byte]trie`): `Nil` is the nil map. */
  datatype Trie = Nil | Node(kids: map<byte, Trie>)

  /** The shared `hit` value stored under key 0: an empty, non-nil map. */
  const Hit: Trie := Node(map[])

  /** Go's `mt[b]`: the stored child, or nil for a missing key or a nil map. */
  function Child(t: Trie, b: byte): Trie {
    if t.Node? && b in t.kids then t.kids[b] else Nil
  }

  /** The shape `load` builds from words without a 0 byte: no nil is ever
      stored, and key 0 only ever holds `hit`. */
  ghost predicate Wf(t: Trie) {
    t.Nil? || forall b :: b in t.kids ==> t.kids[b].Node? && (b == 0 ==> t.kids[b] == Hit) && Wf(t.kids[b])
  }

  /** `load`: allocate the node if it is nil, then mark key 0 at the end of the
      word, or descend into (and replace) the child for the next byte. */
  function Load(t: Trie, word: Word): (r: Trie)
    ensures r.Node?
    decreases |word|
  {
    var kids := if t.Nil? then map[] else t.kids;
    if |word| == 0 then Node(kids[0 := Hit])
    else Node(kids[word[0] := Load(Child(t, word[0]), word[1..])])
  }

  /** The node reached from `t` by following the bytes of `path`; nil once a
      byte has no child. */
  function Descend(t: Trie, path: Word): (r: Trie)
    ensures t.Nil? ==> r.Nil?
    decreases |path|
  {
    if |path| == 0 then t else Descend(Child(t, path[0]), path[1..])
  }

  /** A word ends at this node: key 0 is present (whatever it holds). */
  predicate Ends(t: Trie) {
    t.Node? && 0 in t.kids
  }

  /** `contains`: false at a nil node; at the end of the word, whether key 0 is
      present. A word is contained iff its path leads to a node where a word ends. */
  function Contains(t: Trie, word: Word): (r: bool)
    ensures r <==> Ends(Descend(t, word))
    decreases |word|
  {
    if t.Nil? then false
    else if |word| == 0 then 0 in t.kids
    else Contains(Child(t, word[0]), word[1..])
  }

  /** Following a path in two pieces reaches the same node. */
  lemma {:induction false} DescendConcat(t: Trie, u: Word, v: Word)
    ensures Descend(t, u + v) == Descend(Descend(t, u), v)
    decreases |u|
  {
    if |u| > 0 {
      assert (u + v)[0] == u[0] && (u + v)[1..] == u[1..] + v;
      DescendConcat(Child(t, u[0]), u[1..], v);
    } else {
      assert u + v == v;
    }
  }

  /** Membership of `u + v` is membership of `v` below the node `u` leads to. */
  lemma ContainsSplit(t: Trie, u: Word, v: Word)
    ensures Contains(t, u + v) <==> Contains(Descend(t, u), v)
  {
    DescendConcat(t, u, v);
  }

  /** Loading a word without a 0 byte keeps the shape `load` builds. */
  lemma {:induction false} LoadWf(t: Trie, word: Word)
    requires Wf(t) && ZeroFree(word)
    ensures Wf(Load(t, word))
    decreases |word|
  {
    if |word| > 0 {
      assert word[0] != 0;
      LoadWf(Child(t, word[0]), word[1..]);
    }
  }

  /** Loading a word twice builds the same tree as loading it once: `hit` is
      stored again under the same key and every child is rebuilt equal. */
  lemma {:induction false} LoadIdempotent(t: Trie, word: Word)
    ensures Load(Load(t, word), word) == Load(t, word)
    decreases |word|
  {
    if |word| > 0 {
      var once := Load(t, word);
      assert Child(once, word[0]) == Load(Child(t, word[0]), word[1..]);
      LoadIdempotent(Child(t, word[0]), word[1..]);
      assert once.kids[word[0] := Load(Child(once, word[0]), word[1..])] == once.kids;
    } else {
      var once := Load(t, word);
      assert once.kids[0 := Hit] == once.kids;
    }
  }

  /** After loading `word`, exactly the words contained before and `word` itself
      are contained. */
  lemma {:induction false} LoadContains(t: Trie, word: Word, v: Word)
    requires Wf(t) && ZeroFree(word)
    ensures Contains(Load(t, word), v) <==> v == word || Contains(t, v)
    decreases |word|
  {
    var r := Load(t, word);
    if |word| == 0 {
      if |v| > 0 && v[0] == 0 {
        // key 0 held `hit` before and holds it after, and `hit` contains nothing
        assert Child(r, 0) == Hit;
        assert !Contains(Hit, v[1..]);
      }
    } else {
      assert word[0] != 0;
      if |v| > 0 && v[0] == word[0] {
        LoadContains(Child(t, word[0]), word[1..], v[1..]);
        assert v == word <==> v[1..] == word[1..] by {
          if v[1..] == word[1..] {
            assert v == [v[0]] + v[1..] && word == [word[0]] + word[1..];
          }
        }
      }
    }
  }

  /** One step of a search path: byte `c` taken at `t` prepends `c` to every
      word found below its child. */
  lemma ExtendPath(t: Trie, p: Word, c: byte)
    ensures Contains(Child(t, c), Reverse(p)) ==> Contains(t, Reverse(p + [c]))
  {
    ReverseSnoc(p, c);
    assert ([c] + Reverse(p))[1..] == Reverse(p);
  }

  /** Every path found below the child for `c` (a letter of the buffer),
      extended by `c`, spells a stored word from the same letters. */
  lemma ExtendAllUses(t: Trie, sub: seq<Word>, c: byte, letters: Word)
    requires c in letters
    requires forall p :: p in sub ==> Contains(Child(t, c), Reverse(p)) && UsesOnly(p, letters)
    ensures forall p :: p in AppendToEach(sub, c) ==> Contains(t, Reverse(p)) && UsesOnly(p, letters)
  {
    forall p | p in AppendToEach(sub, c)
      ensures Contains(t, Reverse(p)) && UsesOnly(p, letters)
    {
      var k :| 0 <= k < |sub| && p == sub[k] + [c];
      ExtendPath(t, sub[k], c);
    }
  }

  /** The consuming counterpart: the letter swapped to the front is spent, the
      paths below use the rest of the buffer, so the extended paths use at most
      the whole buffer. */
  lemma ExtendAllConsumes(t: Trie, sub: seq<Word>, letters: Word, i: nat)
    requires i < |letters|
    requires forall p :: p in sub ==>
      Contains(Child(t, Swap(letters, 0, i)[0]), Reverse(p)) && Consumes(p, Swap(letters, 0, i)[1..])
    ensures forall p :: p in AppendToEach(sub, Swap(letters, 0, i)[0]) ==>
      Contains(t, Reverse(p)) && Consumes(p, letters)
  {
    var swapped := Swap(letters, 0, i);
    var c := swapped[0];
    SwapMultiset(letters, 0, i);
    assert swapped == [c] + swapped[1..];
    forall p | p in AppendToEach(sub, c)
      ensures Contains(t, Reverse(p)) && Consumes(p, letters)
    {
      var k :| 0 <= k < |sub| && p == sub[k] + [c];
      ExtendPath(t, sub[k], c);
    }
  }

  /** `permuteInner`, unlimited reuse: at every node emit the empty path if key 0
      is set, then for every position of the (never written) letter buffer
      descend into the child for that letter. Paths come out reversed. */
  function PermuteInner(t: Trie, letters: Word): (r: seq<Word>)
    ensures t.Nil? ==> r == []
    ensures t.Node? && Child(t, 0).Node? ==> |r| > 0 && r[0] == []
    ensures |letters| == 0 ==> |r| <= 1
    decreases t, 1, 0, 0
  {
    if t.Nil? then []
    else (if Child(t, 0).Node? then [[]] else []) + PermuteFrom(t, letters, 0)
  }

  /** Iterations `i..` of the letter loop of `permuteInner`. */
  function PermuteFrom(t: Trie, letters: Word, i: nat): seq<Word>
    requires t.Node? && i <= |letters|
    decreases t, 0, |letters| - i, 1
  {
    if i == |letters| then [] else PermuteAt(t, letters, i) + PermuteFrom(t, letters, i + 1)
  }

  /** Iteration `i` of that loop: descend into the child for `letters[i]`, if
      there is one, and append the letter to every path found below. */
  function PermuteAt(t: Trie, letters: Word, i: nat): seq<Word>
    requires t.Node? && i < |letters|
    decreases t, 0, |letters| - i, 0
  {
    var letter := letters[i];
    if letter in t.kids && t.kids[letter].Node? then
      AppendToEach(PermuteInner(t.kids[letter], letters), letter)
    else []
  }

  /** `permuteInnerConsume`: like `permuteInner`, but each step swaps position
      `i` to the front, descends with the rest of the buffer, and swaps back. */
  function PermuteInnerConsume(t: Trie, letters: Word): (r: seq<Word>)
    ensures t.Nil? ==> r == []
    ensures t.Node? && Child(t, 0).Node? ==> |r| > 0 && r[0] == []
    ensures |letters| == 0 ==> |r| <= 1
    decreases t, 1, 0, 0
  {
    if t.Nil? then []
    else (if Child(t, 0).Node? then [[]] else []) + ConsumeFrom(t, letters, 0)
  }

  /** Iterations `i..` of the swap/recurse/restore loop of `permuteInnerConsume`;
      since every iteration restores the buffer, each one starts from `letters`. */
  function ConsumeFrom(t: Trie, letters: Word, i: nat): seq<Word>
    requires t.Node? && i <= |letters|
    decreases t, 0, |letters| - i, 1
  {
    if i == |letters| then [] else ConsumeAt(t, letters, i) + ConsumeFrom(t, letters, i + 1)
  }

  /** Iteration `i` of that loop: swap position `i` to the front and, if the
      letter now in front has a child, search it with the rest of the buffer
      and append the letter to every path found. */
  function ConsumeAt(t: Trie, letters: Word, i: nat): seq<Word>
    requires t.Node? && i < |letters|
    decreases t, 0, |letters| - i, 0
  {
    var swapped := Swap(letters, 0, i);
    var letter := swapped[0];
    if letter in t.kids && t.kids[letter].Node? then
      AppendToEach(PermuteInnerConsume(t.kids[letter], swapped[1..]), letter)
    else []
  }

  /** The raw search of the selected mode. */
  function Raw(t: Trie, letters: Word, consume: bool): seq<Word> {
    if consume then PermuteInnerConsume(t, letters) else PermuteInner(t, letters)
  }

  /** Soundness of the unlimited search: every raw path, reversed, is a
      contained word, and each of its bytes occurs among the letters. */
  lemma {:induction false} PermuteInnerSound(t: Trie, letters: Word)
    ensures forall p :: p in PermuteInner(t, letters) ==> Contains(t, Reverse(p)) && UsesOnly(p, letters)
    decreases t, 1, 0, 0
  {
    if t.Node? {
      PermuteFromSound(t, letters, 0);
    }
  }

  /** The same soundness for the paths of iterations `i..` of the letter loop. */
  lemma {:induction false} PermuteFromSound(t: Trie, letters: Word, i: nat)
    requires t.Node? && i <= |letters|
    ensures forall p :: p in PermuteFrom(t, letters, i) ==> Contains(t, Reverse(p)) && UsesOnly(p, letters)
    decreases t, 0, |letters| - i, 1
  {
    if i < |letters| {
      PermuteAtSound(t, letters, i);
      PermuteFromSound(t, letters, i + 1);
    }
  }

  lemma {:induction false} PermuteAtSound(t: Trie, letters: Word, i: nat)
    requires t.Node? && i < |letters|
    ensures forall p :: p in PermuteAt(t, letters, i) ==> Contains(t, Reverse(p)) && UsesOnly(p, letters)
    decreases t, 0, |letters| - i, 0
  {
    var letter := letters[i];
    if letter in t.kids && t.kids[letter].Node? {
      PermuteInnerSound(t.kids[letter], letters);
      ExtendAllUses(t, PermuteInner(t.kids[letter], letters), letter, letters);
    }
  }

  /** Soundness of the consuming search: every raw path, reversed, is a
      contained word whose bytes form a sub-multiset of the letters. */
  lemma {:induction false} PermuteInnerConsumeSound(t: Trie, letters: Word)
    ensures forall p :: p in PermuteInnerConsume(t, letters) ==> Contains(t, Reverse(p)) && Consumes(p, letters)
    decreases t, 1, 0, 0
  {
    if t.Node? {
      ConsumeFromSound(t, letters, 0);
    }
  }

  /** The same soundness for the paths of iterations `i..` of the
      swap/recurse/restore loop. */
  lemma {:induction false} ConsumeFromSound(t: Trie, letters: Word, i: nat)
    requires t.Node? && i <= |letters|
    ensures forall p :: p in ConsumeFrom(t, letters, i) ==> Contains(t, Reverse(p)) && Consumes(p, letters)
    decreases t, 0, |letters| - i, 1
  {
    if i < |letters| {
      ConsumeAtSound(t, letters, i);
      ConsumeFromSound(t, letters, i + 1);
    }
  }

  lemma {:induction false} ConsumeAtSound(t: Trie, letters: Word, i: nat)
    requires t.Node? && i < |letters|
    ensures forall p :: p in ConsumeAt(t, letters, i) ==> Contains(t, Reverse(p)) && Consumes(p, letters)
    decreases t, 0, |letters| - i, 0
  {
    var swapped := Swap(letters, 0, i);
    var letter := swapped[0];
    if letter in t.kids && t.kids[letter].Node? {
      PermuteInnerConsumeSound(t.kids[letter], swapped[1..]);
      ExtendAllConsumes(t, PermuteInnerConsume(t.kids[letter], swapped[1..]), letters, i);
    }
  }

  /** Soundness of the search of either mode. */
  lemma RawSound(t: Trie, letters: Word, consume: bool)
    ensures forall p :: p in Raw(t, letters, consume) ==> Contains(t, Reverse(p)) && Spellable(p, letters, consume)
  {
    if consume {
      PermuteInnerConsumeSound(t, letters);
    } else {
      PermuteInnerSound(t, letters);
    }
  }

  /** `permuteAll`: run the selected search, reverse every path, normalise. */
  function PermuteAll(t: Trie, letters: Word, consume: bool): (r: seq<Word>)
    ensures TrieHelper.StrictlySorted(r)
    ensures forall w :: w in r ==> Contains(t, w) && Spellable(w, letters, consume)
  {
    var raw := Raw(t, letters, consume);
    var words := ReverseAll(raw);
    RawSound(t, letters, consume);
    assert forall w :: w in words ==> Contains(t, w) && Spellable(w, letters, consume) by {
      forall w | w in words
        ensures Contains(t, w) && Spellable(w, letters, consume)
      {
        var k :| 0 <= k < |raw| && w == Reverse(raw[k]);
        assert raw[k] in raw;
        ReverseSpellable(raw[k], letters, consume);
      }
    }
    TrieHelper.Uniqueify(words)
  }

  /** Words found by iteration `j` are found from iteration `j` on. */
  lemma PermuteFromHere(t: Trie, letters: Word, j: nat, p: Word)
    requires t.Node? && j < |letters| && p in PermuteAt(t, letters, j)
    ensures p in PermuteFrom(t, letters, j)
  {
  }

  /** Words found by the later iterations are found from iteration `j` on. */
  lemma PermuteFromLater(t: Trie, letters: Word, j: nat, p: Word)
    requires t.Node? && j < |letters|
    requires p in PermuteFrom(t, letters, j + 1)
    ensures p in PermuteFrom(t, letters, j)
  {
  }

  /** A path found from loop iteration `i` on is found from every earlier
      iteration on. */
  lemma {:induction false} PermuteFromHas(t: Trie, letters: Word, j: nat, i: nat, p: Word)
    requires t.Node? && j <= i < |letters|
    requires p in PermuteFrom(t, letters, i)
    ensures p in PermuteFrom(t, letters, j)
    decreases i - j
  {
    if j < i {
      assert p in PermuteFrom(t, letters, j + 1) by {
        PermuteFromHas(t, letters, j + 1, i, p);
      }
      PermuteFromLater(t, letters, j, p);
    }
  }

  /** Completeness of the unlimited search: every contained word whose bytes all
      occur among the letters is found, as its reversed path. */
  lemma {:induction false} PermuteInnerComplete(t: Trie, letters: Word, w: Word)
    requires Wf(t) && Contains(t, w) && UsesOnly(w, letters)
    ensures Reverse(w) in PermuteInner(t, letters)
    decreases |w|
  {
    if |w| > 0 {
      var c := w[0];
      var child := Child(t, c);
      PermuteInnerComplete(child, letters, w[1..]);
      var i :| 0 <= i < |letters| && letters[i] == c;
      ReverseSnoc(w[1..], c);
      assert w == [c] + w[1..];
      var sub := PermuteInner(child, letters);
      var k :| 0 <= k < |sub| && sub[k] == Reverse(w[1..]);
      assert AppendToEach(sub, c)[k] == Reverse(w);
      PermuteFromHere(t, letters, i, Reverse(w));
      PermuteFromHas(t, letters, 0, i, Reverse(w));
    }
  }

  /** Words found by iteration `j` are found from iteration `j` on. */
  lemma ConsumeFromHere(t: Trie, letters: Word, j: nat, p: Word)
    requires t.Node? && j < |letters| && p in ConsumeAt(t, letters, j)
    ensures p in ConsumeFrom(t, letters, j)
  {
  }

  /** Words found by the later iterations are found from iteration `j` on. */
  lemma ConsumeFromLater(t: Trie, letters: Word, j: nat, p: Word)
    requires t.Node? && j < |letters|
    requires p in ConsumeFrom(t, letters, j + 1)
    ensures p in ConsumeFrom(t, letters, j)
  {
  }

  lemma {:induction false} ConsumeFromHas(t: Trie, letters: Word, j: nat, i: nat, p: Word)
    requires t.Node? && j <= i < |letters|
    requires p in ConsumeFrom(t, letters, i)
    ensures p in ConsumeFrom(t, letters, j)
    decreases i - j
  {
    if j < i {
      assert p in ConsumeFrom(t, letters, j + 1) by {
        ConsumeFromHas(t, letters, j + 1, i, p);
      }
      ConsumeFromLater(t, letters, j, p);
    }
  }

  /** Completeness of the consuming search: every contained word whose byte
      multiset fits in the letters' is found, as its reversed path. */
  lemma {:induction false} PermuteInnerConsumeComplete(t: Trie, letters: Word, w: Word)
    requires Wf(t) && Contains(t, w) && Consumes(w, letters)
    ensures Reverse(w) in PermuteInnerConsume(t, letters)
    decreases |w|
  {
    if |w| > 0 {
      var c := w[0];
      var child := Child(t, c);
      assert w == [c] + w[1..];
      assert c in multiset(letters);
      var i :| 0 <= i < |letters| && letters[i] == c;
      var swapped := Swap(letters, 0, i);
      ConsumesTail(w, letters, i);
      PermuteInnerConsumeComplete(child, swapped[1..], w[1..]);
      ReverseSnoc(w[1..], c);
      var sub := PermuteInnerConsume(child, swapped[1..]);
      var k :| 0 <= k < |sub| && sub[k] == Reverse(w[1..]);
      assert Reverse(w) == Reverse(w[1..]) + [c];
      assert AppendToEach(sub, c)[k] == sub[k] + [c];
      ConsumeFromHere(t, letters, i, Reverse(w));
      ConsumeFromHas(t, letters, 0, i, Reverse(w));
    }
  }

  /** `permuteAll` returns exactly the contained words spellable under the mode. */
  lemma PermuteAllExact(t: Trie, letters: Word, consume: bool, w: Word)
    requires Wf(t)
    ensures w in PermuteAll(t, letters, consume) <==> Contains(t, w) && Spellable(w, letters, consume)
  {
    if Contains(t, w) && Spellable(w, letters, consume) {
      var raw := Raw(t, letters, consume);
      if consume {
        PermuteInnerConsumeComplete(t, letters, w);
      } else {
        PermuteInnerComplete(t, letters, w);
      }
      var k :| 0 <= k < |raw| && raw[k] == Reverse(w);
      ReverseInvolution(w);
      assert ReverseAll(raw)[k] == w;
    }
  }

  lemma ConcatAssociative(a: seq<Word>, b: seq<Word>, c: seq<Word>)
    ensures (a + b) + c == a + (b + c)
  {
  }

  /** The consuming search over a caller's buffer `a[lo..]`, in place. The
      buffer is exactly as it was on return. */
  method PermuteInnerConsumeInPlace(t: Trie, a: array<byte>, lo: nat) returns (r: seq<Word>)
    requires lo <= a.Length
    modifies a
    ensures a[..] == old(a[..])
    ensures r == PermuteInnerConsume(t, old(a[lo..]))
    decreases t, 1
  {
    if t.Nil? {
      return [];
    }
    ghost var letters := a[lo..];
    r := if Child(t, 0).Node? then [[]] else [];
    var i := 0;
    while i < a.Length - lo
      invariant 0 <= i <= a.Length - lo
      invariant a[..] == old(a[..]) && a[lo..] == letters
      invariant r + ConsumeFrom(t, letters, i) == PermuteInnerConsume(t, letters)
    {
      var step := ConsumeStepInPlace(t, a, lo, i);
      ConcatAssociative(r, step, ConsumeFrom(t, letters, i + 1));
      r := r + step;
      i := i + 1;
    }
  }

  /** One iteration of the loop of `permuteInnerConsume` on `a[lo..]`: swap
      position `lo + i` to the front, recurse on `a[lo + 1..]`, swap back. It
      contributes the paths iteration `i` stands for and restores the buffer. */
  method ConsumeStepInPlace(t: Trie, a: array<byte>, lo: nat, i: nat) returns (step: seq<Word>)
    requires t.Node? && lo + i < a.Length
    modifies a
    ensures a[..] == old(a[..])
    ensures step == ConsumeAt(t, old(a[lo..]), i)
    decreases t, 0
  {
    ghost var here := a[..];
    ghost var letters := a[lo..];
    ghost var swapped := Swap(letters, 0, i);
    a[lo], a[lo + i] := a[lo + i], a[lo];
    assert a[lo..] == swapped;
    step := [];
    if a[lo] in t.kids && t.kids[a[lo]].Node? {
      assert a[lo + 1..] == swapped[1..];
      var sub := PermuteInnerConsumeInPlace(t.kids[a[lo]], a, lo + 1);
      step := AppendToEach(sub, a[lo]);
    }
    a[lo], a[lo + i] := a[lo + i], a[lo];
    assert a[..] == here;
  }

  /** `permuteAll` over the caller's own buffer (Go's `[]byte(letters)` on a
      byte slice is no copy): the buffer is unchanged on return. */
  method PermuteAllInPlace(t: Trie, letters: array<byte>, consume: bool) returns (r: seq<Word>)
    modifies letters
    ensures letters[..] == old(letters[..])
    ensures r == PermuteAll(t, old(letters[..]), consume)
  {
    var raw;
    if consume {
      raw := PermuteInnerConsumeInPlace(t, letters, 0);
      assert old(letters[..])[0..] == old(letters[..]);
    } else {
      raw := PermuteInner(t, letters[..]);
    }
    var words := ReverseEach(raw);
    assert words == ReverseAll(raw) by {
      forall k | 0 <= k < |raw|
        ensures words[k] == Reverse(raw[k])
      {
        ReverseInvolution(words[k]);
      }
    }
    r := TrieHelper.UniqueifyResults(words);
  }
}
