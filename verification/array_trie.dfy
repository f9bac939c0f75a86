/** The dense trie of arraytrie/array_trie.go: every node has a slot per byte
    value plus slot 256 for the end-of-word sentinel `hit`. */
module ArrayTrie {
  import opened Bytes

  /** Go `*Trie` (`[257]*Trie`): `Nil` is the nil pointer. Slots 0..255 are
      `kids`; slot 256, which only ever holds nil or the shared `hit`, is the
      flag `hit`. */
  datatype Trie = Nil | Node(kids: seq<Trie>, hit: bool)

  /** Every node has its 256 byte-indexed slots. */
  ghost predicate Valid(at: Trie) {
    at.Nil? || (|at.kids| == 256 && forall b: int :: 0 <= b < 256 ==> Valid(at.kids[b]))
  }

  /** A freshly allocated `&Trie{}`: every slot nil. */
  function Empty(): (r: Trie)
    ensures Valid(r) && r.Node? && !r.hit
    ensures forall b :: 0 <= b < 256 ==> r.kids[b] == Nil
  {
    Node(seq(256, _ => Nil), false)
  }

  /** `New`: the nil pointer. */
  function New(): (r: Trie)
    ensures Valid(r)
    ensures forall w :: !Contains(r, w)
  {
    Nil
  }

  /** `Load`: allocate the node if it is nil, then set slot 256 at the end of
      the word, or descend into (and replace) the slot of the next byte. Only a
      nil slot is ever filled with a new node; every other slot keeps its child. */
  function Load(at: Trie, word: Word): (r: Trie)
    requires Valid(at)
    ensures Valid(r) && r.Node?
    ensures at.Node? ==> forall b :: 0 <= b < 256 && (|word| == 0 || b != word[0] as int) ==> r.kids[b] == at.kids[b]
    ensures at.Node? && at.hit ==> r.hit
    decreases |word|, if at.Nil? then 1 else 0
  {
    if at.Nil? then Load(Empty(), word)
    else if |word| == 0 then Node(at.kids, true)
    else Node(at.kids[word[0] as int := Load(at.kids[word[0] as int], word[1..])], at.hit)
  }

  /** `LoadString`: `Load` of the string's bytes. Afterwards the contained
      strings are the old ones plus `word`. */
  function LoadString(at: Trie, word: string): (r: Trie)
    requires Valid(at)
    requires AsciiText(word)
    ensures Valid(r) && r.Node?
    ensures forall v :: AsciiText(v) ==> (ContainsString(r, v) <==> ContainsString(at, v) || v == word)
  {
    var r := Load(at, Ascii(word));
    forall v | AsciiText(v)
      ensures ContainsString(r, v) <==> ContainsString(at, v) || v == word
    {
      LoadContains(at, Ascii(word), Ascii(v));
      if Ascii(v) == Ascii(word) {
        AsciiInjective(v, word);
      }
    }
    r
  }

  /** The node reached from `at` by following the bytes of `path`; nil once a
      slot on the way is nil. */
  function Descend(at: Trie, path: Word): (r: Trie)
    requires Valid(at)
    ensures Valid(r)
    ensures at.Nil? ==> r.Nil?
    decreases |path|
  {
    if |path| == 0 || at.Nil? then at else Descend(at.kids[path[0] as int], path[1..])
  }

  /** A word ends at this node: slot 256 holds `hit`. */
  predicate Ends(at: Trie) {
    at.Node? && at.hit
  }

  /** `Contains`: false at a nil node; at the end of the word, whether slot 256
      is `hit`. A word is contained iff its path leads to a node where a word ends. */
  function Contains(at: Trie, word: Word): (r: bool)
    requires Valid(at)
    ensures r <==> Ends(Descend(at, word))
    decreases |word|
  {
    if at.Nil? then false
    else if |word| == 0 then at.hit
    else Contains(at.kids[word[0] as int], word[1..])
  }

  /** `ContainsString`: membership of the string's bytes. */
  function ContainsString(at: Trie, word: string): (r: bool)
    requires Valid(at)
    requires AsciiText(word)
    ensures r <==> Ends(Descend(at, Ascii(word)))
  {
    Contains(at, Ascii(word))
  }

  lemma EmptyContainsNothing(v: Word)
    ensures !Contains(Empty(), v)
  {
  }

  /** Loading a word twice builds the same tree as loading it once. */
  lemma {:induction false} LoadIdempotent(at: Trie, word: Word)
    requires Valid(at)
    ensures Load(Load(at, word), word) == Load(at, word)
    decreases |word|, if at.Nil? then 1 else 0
  {
    if at.Nil? {
      LoadIdempotent(Empty(), word);
    } else if |word| > 0 {
      var once := Load(at, word);
      var b := word[0] as int;
      assert once.kids[b] == Load(at.kids[b], word[1..]);
      LoadIdempotent(at.kids[b], word[1..]);
      assert once.kids[b := Load(once.kids[b], word[1..])] == once.kids;
    }
  }

  /** After loading `word`, exactly the words contained before and `word`
      itself are contained. The terminal has a slot of its own, so this holds
      for words with any byte values 0..255. */
  lemma {:induction false} LoadContains(at: Trie, word: Word, v: Word)
    requires Valid(at)
    ensures Contains(Load(at, word), v) <==> v == word || Contains(at, v)
    decreases |word|, if at.Nil? then 1 else 0
  {
    if at.Nil? {
      LoadContains(Empty(), word, v);
      EmptyContainsNothing(v);
    } else if |word| > 0 && |v| > 0 && v[0] == word[0] {
      LoadContains(at.kids[word[0] as int], word[1..], v[1..]);
      assert v == word <==> v[1..] == word[1..] by {
        if v[1..] == word[1..] {
          assert v == [v[0]] + v[1..] && word == [word[0]] + word[1..];
        }
      }
    }
  }

  /** One step of a search path: byte `c` taken at `at` prepends `c` to every
      word found below its slot. */
  lemma ExtendPath(at: Trie, p: Word, c: byte)
    requires Valid(at) && at.Node?
    ensures Contains(at.kids[c as int], Reverse(p)) ==> Contains(at, Reverse(p + [c]))
  {
    ReverseSnoc(p, c);
    assert ([c] + Reverse(p))[1..] == Reverse(p);
  }

  /** Every sub-path found below the slot of `letter` becomes, with `letter`
      appended, a path found at `at`. */
  lemma ExtendAll(at: Trie, sub: seq<Word>, letter: byte, letters: Word)
    requires Valid(at) && at.Node? && letter in letters
    requires forall p :: p in sub ==> Contains(at.kids[letter as int], Reverse(p)) && UsesOnly(p, letters)
    ensures forall p :: p in AppendToEach(sub, letter) ==> Contains(at, Reverse(p)) && UsesOnly(p, letters)
  {
    forall p | p in AppendToEach(sub, letter)
      ensures Contains(at, Reverse(p)) && UsesOnly(p, letters)
    {
      var k :| 0 <= k < |sub| && p == sub[k] + [letter];
      assert sub[k] in sub;
      ExtendPath(at, sub[k], letter);
    }
  }

  /** `permuteInner`: nothing for an empty buffer or a nil node; otherwise the
      empty path if slot 256 is `hit`, then for every letter of the (never
      written) buffer the paths below that letter's slot. Paths come out reversed. */
  function PermuteInner(at: Trie, letters: Word): (r: seq<Word>)
    requires Valid(at)
    ensures |letters| == 0 ==> r == []
    decreases at, 1, 0, 0
  {
    if |letters| == 0 || at.Nil? then []
    else (if at.hit then [[]] else []) + PermuteFrom(at, letters, 0)
  }

  /** Iterations `i..` of the letter loop of `permuteInner`. */
  function PermuteFrom(at: Trie, letters: Word, i: nat): seq<Word>
    requires Valid(at) && at.Node? && i <= |letters|
    decreases at, 0, |letters| - i, 1
  {
    if i == |letters| then [] else PermuteAt(at, letters, i) + PermuteFrom(at, letters, i + 1)
  }

  /** Iteration `i` of that loop: the paths below the slot of `letters[i]`,
      each with the letter appended. */
  function PermuteAt(at: Trie, letters: Word, i: nat): seq<Word>
    requires Valid(at) && at.Node? && i < |letters|
    decreases at, 0, |letters| - i, 0
  {
    var letter := letters[i];
    if at.kids[letter as int].Node? then AppendToEach(PermuteInner(at.kids[letter as int], letters), letter)
    else []
  }

  /** Soundness of the search: every raw path, reversed, is a contained word
      using only bytes among the letters. */
  lemma {:induction false} PermuteInnerSound(at: Trie, letters: Word)
    requires Valid(at)
    ensures forall p :: p in PermuteInner(at, letters) ==> Contains(at, Reverse(p)) && UsesOnly(p, letters)
    decreases at, 1, 0, 0
  {
    if |letters| > 0 && at.Node? {
      PermuteFromSound(at, letters, 0);
    }
  }

  lemma {:induction false} PermuteFromSound(at: Trie, letters: Word, i: nat)
    requires Valid(at) && at.Node? && i <= |letters|
    ensures forall p :: p in PermuteFrom(at, letters, i) ==> Contains(at, Reverse(p)) && UsesOnly(p, letters)
    decreases at, 0, |letters| - i, 1
  {
    if i < |letters| {
      PermuteAtSound(at, letters, i);
      PermuteFromSound(at, letters, i + 1);
    }
  }

  lemma {:induction false} PermuteAtSound(at: Trie, letters: Word, i: nat)
    requires Valid(at) && at.Node? && i < |letters|
    ensures forall p :: p in PermuteAt(at, letters, i) ==> Contains(at, Reverse(p)) && UsesOnly(p, letters)
    decreases at, 0, |letters| - i, 0
  {
    var letter := letters[i];
    if at.kids[letter as int].Node? {
      PermuteInnerSound(at.kids[letter as int], letters);
      ExtendAll(at, PermuteInner(at.kids[letter as int], letters), letter, letters);
    }
  }

  /** `PermuteAll`: the raw paths reversed into words, with no deduplication. */
  function PermuteAll(at: Trie, letters: Word): (r: seq<Word>)
    requires Valid(at)
    ensures |letters| == 0 ==> r == []
    ensures forall w :: w in r ==> Contains(at, w) && UsesOnly(w, letters)
  {
    var raw := PermuteInner(at, letters);
    var words := ReverseAll(raw);
    PermuteInnerSound(at, letters);
    assert forall w :: w in words ==> Contains(at, w) && UsesOnly(w, letters) by {
      forall w | w in words
        ensures Contains(at, w) && UsesOnly(w, letters)
      {
        var k :| 0 <= k < |raw| && w == Reverse(raw[k]);
        assert raw[k] in raw;
        ReverseSpellable(raw[k], letters, false);
      }
    }
    words
  }

  /** Words found by iteration `j` are found from iteration `j` on. */
  lemma PermuteFromHere(at: Trie, letters: Word, j: nat, p: Word)
    requires Valid(at) && at.Node? && j < |letters| && p in PermuteAt(at, letters, j)
    ensures p in PermuteFrom(at, letters, j)
  {
  }

  /** Words found by the later iterations are found from iteration `j` on. */
  lemma PermuteFromLater(at: Trie, letters: Word, j: nat, p: Word)
    requires Valid(at) && at.Node? && j < |letters| && p in PermuteFrom(at, letters, j + 1)
    ensures p in PermuteFrom(at, letters, j)
  {
  }

  /** A path found from loop iteration `i` on is found from every earlier
      iteration on. */
  lemma {:induction false} PermuteFromHas(at: Trie, letters: Word, j: nat, i: nat, p: Word)
    requires Valid(at) && at.Node? && j <= i < |letters|
    requires p in PermuteFrom(at, letters, i)
    ensures p in PermuteFrom(at, letters, j)
    decreases i - j
  {
    if j < i {
      assert p in PermuteFrom(at, letters, j + 1) by {
        PermuteFromHas(at, letters, j + 1, i, p);
      }
      PermuteFromLater(at, letters, j, p);
    }
  }

  /** Completeness for a non-empty buffer: every contained word whose bytes all
      occur among the letters is found, as its reversed path. */
  lemma {:induction false} PermuteInnerComplete(at: Trie, letters: Word, w: Word)
    requires Valid(at) && |letters| > 0
    requires Contains(at, w) && UsesOnly(w, letters)
    ensures Reverse(w) in PermuteInner(at, letters)
    decreases |w|
  {
    if |w| > 0 {
      var c := w[0];
      var child := at.kids[c as int];
      PermuteInnerComplete(child, letters, w[1..]);
      var i :| 0 <= i < |letters| && letters[i] == c;
      var sub := PermuteInner(child, letters);
      var k :| 0 <= k < |sub| && sub[k] == Reverse(w[1..]);
      assert Reverse(w) == Reverse(w[1..]) + [c];
      assert AppendToEach(sub, c)[k] == sub[k] + [c];
      PermuteFromHere(at, letters, i, Reverse(w));
      PermuteFromHas(at, letters, 0, i, Reverse(w));
    }
  }

  /** `PermuteAll` finds exactly the contained words built from the letters,
      except that an empty buffer finds nothing, not even a loaded "". */
  lemma PermuteAllExact(at: Trie, letters: Word, w: Word)
    requires Valid(at)
    ensures w in PermuteAll(at, letters) <==> |letters| > 0 && Contains(at, w) && UsesOnly(w, letters)
  {
    if |letters| > 0 && Contains(at, w) && UsesOnly(w, letters) {
      var raw := PermuteInner(at, letters);
      PermuteInnerComplete(at, letters, w);
      var k :| 0 <= k < |raw| && raw[k] == Reverse(w);
      ReverseInvolution(w);
      assert ReverseAll(raw)[k] == w;
    }
  }

  /** With pairwise distinct letters no raw path repeats, and every path
      found from iteration `i` on ends with one of `letters[i..]`. */
  lemma {:induction false} PermuteFromNoRepeats(at: Trie, letters: Word, i: nat)
    requires Valid(at) && at.Node? && i <= |letters| && NoRepeats(letters)
    ensures NoRepeats(PermuteFrom(at, letters, i))
    ensures forall p :: p in PermuteFrom(at, letters, i) ==> |p| > 0 && p[|p| - 1] in letters[i..]
    decreases at, 0, |letters| - i, 1
  {
    if i < |letters| {
      var letter := letters[i];
      PermuteFromNoRepeats(at, letters, i + 1);
      PermuteAtNoRepeats(at, letters, i);
      var rest := PermuteFrom(at, letters, i + 1);
      var here := PermuteAt(at, letters, i);
      forall p | p in rest
        ensures p !in here
      {
        var j :| i + 1 <= j < |letters| && p[|p| - 1] == letters[j] by {
          var m :| 0 <= m < |letters[i + 1..]| && letters[i + 1..][m] == p[|p| - 1];
          assert letters[i + 1 + m] == p[|p| - 1];
        }
        assert letters[j] != letter;
      }
      forall p | p in here + rest
        ensures |p| > 0 && p[|p| - 1] in letters[i..]
      {
        if p in rest {
          assert letters[i + 1..] == letters[i..][1..];
        } else {
          assert letters[i..][0] == letter;
        }
      }
      NoRepeatsConcat(here, rest);
    }
  }

  /** Iteration `i` finds no path twice, and all its paths end with `letters[i]`. */
  lemma {:induction false} PermuteAtNoRepeats(at: Trie, letters: Word, i: nat)
    requires Valid(at) && at.Node? && i < |letters| && NoRepeats(letters)
    ensures NoRepeats(PermuteAt(at, letters, i))
    ensures forall p :: p in PermuteAt(at, letters, i) ==> |p| > 0 && p[|p| - 1] == letters[i]
    decreases at, 0, |letters| - i, 0
  {
    var letter := letters[i];
    if at.kids[letter as int].Node? {
      var sub := PermuteInner(at.kids[letter as int], letters);
      var here := AppendToEach(sub, letter);
      PermuteInnerNoRepeats(at.kids[letter as int], letters);
      forall a, b | 0 <= a < b < |here|
        ensures here[a] != here[b]
      {
        assert here[a][..|here[a]| - 1] == sub[a];
        assert here[b][..|here[b]| - 1] == sub[b];
      }
    }
  }

  lemma {:induction false} PermuteInnerNoRepeats(at: Trie, letters: Word)
    requires Valid(at) && NoRepeats(letters)
    ensures NoRepeats(PermuteInner(at, letters))
    decreases at, 1, 0, 0
  {
    if |letters| > 0 && at.Node? {
      PermuteFromNoRepeats(at, letters, 0);
      var head: seq<Word> := if at.hit then [[]] else [];
      NoRepeatsConcat(head, PermuteFrom(at, letters, 0));
    }
  }

  /** `PermuteAll` applies no deduplication, but with pairwise distinct letters
      it yields no word twice. */
  lemma PermuteAllDistinct(at: Trie, letters: Word)
    requires Valid(at) && NoRepeats(letters)
    ensures NoRepeats(PermuteAll(at, letters))
  {
    var raw := PermuteInner(at, letters);
    PermuteInnerNoRepeats(at, letters);
    var r := PermuteAll(at, letters);
    forall a, b | 0 <= a < b < |r|
      ensures r[a] != r[b]
    {
      ReverseInvolution(raw[a]);
      ReverseInvolution(raw[b]);
    }
  }
}
