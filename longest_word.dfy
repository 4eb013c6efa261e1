/**
 longest-word: every word is inserted into the prefix index; a word whose
 insertion met a known word boundary is queued with its missing suffixes; once
 the index is complete, each queued word whose missing suffixes include one
 that decomposes into known words is a concatenated word and is offered to the
 top-2 tracker.
 */
module LongestWord {
  import opened PrefixIndex
  import opened Decomposition
  import opened CandidateTracker

  /** A queued word with its missing suffixes, head first. */
  datatype Pending = Pending(word: Word, missing: seq<Word>)

  /** The trie root and the queue after the insertion pass. */
  datatype Index = Index(root: Trie, pending: seq<Pending>)

  /** Lines of length at most 2 (an empty line and its terminator) are skipped,
      so every inserted word has at least one letter. */
  predicate NonemptyWords(words: seq<Word>)
  {
    forall i :: 0 <= i < |words| ==> |words[i]| > 0
  }

  /** Prepends a queued word to the pending list. */
  function PushPending(list: seq<Pending>, word: Word, missing: seq<Word>): (r: seq<Pending>)
    ensures |r| == |list| + 1 && r[0] == Pending(word, missing) && r[1..] == list
  {
    [Pending(word, missing)] + list
  }

  /** The index after inserting `words` in order, queueing each word that
      reported a nonempty missing list. */
  function Indexed(words: seq<Word>): Index
  {
    if words == [] then Index(Empty, [])
    else
      var prev := Indexed(words[..|words| - 1]);
      var w := words[|words| - 1];
      var (root, missing) := Insert(prev.root, w, []);
      Index(root, if missing != [] then PushPending(prev.pending, w, missing) else prev.pending)
  }

  /** The insertion pass over the input. */
  method Load(words: seq<Word>) returns (idx: Index)
    ensures idx == Indexed(words)
    ensures forall w :: HasWord(idx.root, w) <==> w in words
    ensures forall i :: 0 <= i < |idx.pending| ==> idx.pending[i].missing != []
  {
    var root := Empty;
    var pending: seq<Pending> := [];
    for i := 0 to |words|
      invariant Index(root, pending) == Indexed(words[..i])
    {
      assert words[..i + 1][..i] == words[..i];
      var (t, missing) := Insert(root, words[i], []);
      root := t;
      if missing != [] {
        pending := PushPending(pending, words[i], missing);
      }
    }
    assert words[..|words|] == words;
    idx := Index(root, pending);
    forall w
      ensures HasWord(idx.root, w) <==> w in words
    {
      IndexedVocabulary(words, w);
    }
    IndexedQueuesOnlyCandidates(words);
  }

  /** The words of the trie are exactly the inserted words. */
  lemma {:induction false} IndexedVocabulary(words: seq<Word>, w: Word)
    ensures HasWord(Indexed(words).root, w) <==> w in words
    decreases |words|
  {
    if words != [] {
      var front := words[..|words| - 1];
      IndexedVocabulary(front, w);
      InsertLookup(Indexed(front).root, words[|words| - 1], [], w);
      assert words == front + [words[|words| - 1]];
    } else {
      EmptyHasOnlyRoot(w);
    }
  }

  /** `p` is a prefix of some word of `words`. */
  ghost predicate PrefixOfSome(p: Word, words: seq<Word>)
  {
    exists i :: 0 <= i < |words| && IsPrefix(p, words[i])
  }

  lemma PrefixOfSomeLast(p: Word, words: seq<Word>)
    requires words != []
    ensures PrefixOfSome(p, words)
        <==> PrefixOfSome(p, words[..|words| - 1]) || IsPrefix(p, words[|words| - 1])
  {
    var front := words[..|words| - 1];
    if PrefixOfSome(p, words) {
      var i :| 0 <= i < |words| && IsPrefix(p, words[i]);
      if i < |front| {
        assert front[i] == words[i];
      }
    }
    if PrefixOfSome(p, front) {
      var i :| 0 <= i < |front| && IsPrefix(p, front[i]);
      assert words[i] == front[i];
    }
  }

  /** A node exists exactly on the paths that are prefixes of inserted words. */
  lemma {:induction false} IndexedShape(words: seq<Word>, p: Word)
    ensures Lookup(Indexed(words).root, p).Some? <==> p == [] || PrefixOfSome(p, words)
    decreases |words|
  {
    if words != [] {
      var front := words[..|words| - 1];
      IndexedShape(front, p);
      InsertLookup(Indexed(front).root, words[|words| - 1], [], p);
      PrefixOfSomeLast(p, words);
    } else {
      EmptyHasOnlyRoot(p);
    }
  }

  /** The root is never a word end, since no inserted word is empty. */
  lemma IndexedRootNotWordEnd(words: seq<Word>)
    requires NonemptyWords(words)
    ensures !Indexed(words).root.wordEnd
  {
    IndexedVocabulary(words, []);
  }

  /** Only words with a nonempty missing list are queued. */
  lemma {:induction false} IndexedQueuesOnlyCandidates(words: seq<Word>)
    ensures forall i :: 0 <= i < |Indexed(words).pending| ==> Indexed(words).pending[i].missing != []
    decreases |words|
  {
    if words != [] {
      IndexedQueuesOnlyCandidates(words[..|words| - 1]);
    }
  }

  /** `s` is w[k..] for a proper, nonempty prefix w[..k] that is an inserted word. */
  ghost predicate BoundarySuffix(words: seq<Word>, w: Word, s: Word)
  {
    exists k :: 0 < k < |w| && w[..k] in words && s == w[k..]
  }

  /** A queued word is an inserted word with at least one missing suffix, each
      of which follows a prefix that is an inserted word. */
  ghost predicate SoundEntry(words: seq<Word>, e: Pending)
  {
    && e.word in words
    && e.missing != []
    && forall i :: 0 <= i < |e.missing| ==> BoundarySuffix(words, e.word, e.missing[i])
  }

  lemma InPrefix(words: seq<Word>, m: nat, w: Word)
    requires m <= |words| && w in words[..m]
    ensures w in words
  {
    var i :| 0 <= i < m && words[..m][i] == w;
    assert words[i] == w;
  }

  lemma SoundEntryGrows(words: seq<Word>, m: nat, e: Pending)
    requires m <= |words| && SoundEntry(words[..m], e)
    ensures SoundEntry(words, e)
  {
    InPrefix(words, m, e.word);
    forall j | 0 <= j < |e.missing|
      ensures BoundarySuffix(words, e.word, e.missing[j])
    {
      assert BoundarySuffix(words[..m], e.word, e.missing[j]);
      var k :| 0 < k < |e.word| && e.word[..k] in words[..m] && e.missing[j] == e.word[k..];
      InPrefix(words, m, e.word[..k]);
    }
  }

  /** Suffix soundness of the queue: each entry is an inserted word, has at least
      one missing suffix, and each of its suffixes is w[k..] for a proper,
      nonempty prefix w[..k] that is an inserted word. */
  lemma {:induction false} IndexedPendingSound(words: seq<Word>)
    requires NonemptyWords(words)
    ensures forall i :: 0 <= i < |Indexed(words).pending| ==> SoundEntry(words, Indexed(words).pending[i])
    decreases |words|
  {
    if words != [] {
      var n := |words|;
      var front, x := words[..n - 1], words[n - 1];
      assert words == front + [x];
      IndexedPendingSound(front);
      var prev := Indexed(front);
      forall i | 0 <= i < |prev.pending|
        ensures SoundEntry(words, prev.pending[i])
      {
        SoundEntryGrows(words, n - 1, prev.pending[i]);
      }
      IndexedRootNotWordEnd(front);
      InsertMissing(prev.root, x, []);
      var b := Boundaries(prev.root, x);
      assert b + [] == b;
      if b != [] {
        forall j | 0 <= j < |b|
          ensures BoundarySuffix(words, x, b[j])
        {
          BoundariesExact(prev.root, x, |x|, b[j]);
          var k :| 0 <= k < |x| && HasWord(prev.root, x[..k]) && b[j] == x[k..];
          IndexedVocabulary(front, x[..k]);
          assert k != 0 by { IndexedVocabulary(front, []); assert x[..0] == []; }
        }
        assert SoundEntry(words, Pending(x, b));
      }
    }
  }

  /** Some missing suffix decomposes into words of the trie. */
  predicate AnyDecomposes(root: Trie, missing: seq<Word>)
    requires !root.wordEnd
  {
    exists i :: 0 <= i < |missing| && IsInTrie(root, Some(root), missing[i])
  }

  /** The queued words that are confirmed, in queue order, each at most once. */
  function Matched(root: Trie, pending: seq<Pending>): seq<Word>
    requires !root.wordEnd
  {
    if pending == [] then []
    else (if AnyDecomposes(root, pending[0].missing) then [pending[0].word] else []) + Matched(root, pending[1..])
  }

  /** Every position moved one entry further down the queue. */
  function Shifted(positions: seq<nat>): (r: seq<nat>)
    ensures |r| == |positions| && forall k :: 0 <= k < |r| ==> r[k] == positions[k] + 1
  {
    seq(|positions|, k requires 0 <= k < |positions| => positions[k] + 1)
  }

  /** The positions in the queue of the confirmed entries, in queue order. */
  function MatchedPositions(root: Trie, pending: seq<Pending>): seq<nat>
    requires !root.wordEnd
  {
    if pending == [] then []
    else (if AnyDecomposes(root, pending[0].missing) then [0] else []) + Shifted(MatchedPositions(root, pending[1..]))
  }

  /** The k-th confirmed word is the word of the entry at the k-th position,
      and the positions strictly increase. */
  ghost predicate PicksInOrder(words: seq<Word>, positions: seq<nat>, pending: seq<Pending>)
  {
    && |positions| == |words|
    && (forall k :: 0 <= k < |positions| ==> positions[k] < |pending| && words[k] == pending[positions[k]].word)
    && (forall k, l :: 0 <= k < l < |positions| ==> positions[k] < positions[l])
  }

  /** Putting one more entry at the head of the queue, and its word at the head
      of the picked words when it is picked, keeps the picks in order. */
  lemma PicksInOrderCons(picked: bool, e: Pending, words: seq<Word>, positions: seq<nat>, rest: seq<Pending>)
    requires PicksInOrder(words, positions, rest)
    ensures PicksInOrder((if picked then [e.word] else []) + words,
                         (if picked then [0] else []) + Shifted(positions), [e] + rest)
  {
    var head := if picked then [0] else [];
    var ws := (if picked then [e.word] else []) + words;
    var idx := head + Shifted(positions);
    var queue := [e] + rest;
    forall k | 0 <= k < |idx|
      ensures idx[k] < |queue| && ws[k] == queue[idx[k]].word
    {
      if k >= |head| {
        assert idx[k] == positions[k - |head|] + 1;
        assert ws[k] == words[k - |head|];
      }
    }
  }

  lemma {:induction false} MatchedPicksInOrder(root: Trie, pending: seq<Pending>)
    requires !root.wordEnd
    ensures PicksInOrder(Matched(root, pending), MatchedPositions(root, pending), pending)
  {
    if pending != [] {
      MatchedPicksInOrder(root, pending[1..]);
      assert pending == [pending[0]] + pending[1..];
      PicksInOrderCons(AnyDecomposes(root, pending[0].missing), pending[0],
                       Matched(root, pending[1..]), MatchedPositions(root, pending[1..]), pending[1..]);
    }
  }

  /** A position is in the shifted list exactly when the one before it is in the list. */
  lemma ShiftedMember(positions: seq<nat>, i: nat)
    ensures i + 1 in Shifted(positions) <==> i in positions
    ensures 0 !in Shifted(positions)
  {
    if i in positions {
      var k :| 0 <= k < |positions| && positions[k] == i;
      assert Shifted(positions)[k] == i + 1;
    }
  }

  lemma {:induction false} MatchedPositionsExact(root: Trie, pending: seq<Pending>, i: nat)
    requires !root.wordEnd && i < |pending|
    ensures AnyDecomposes(root, pending[i].missing) <==> i in MatchedPositions(root, pending)
  {
    var tail := MatchedPositions(root, pending[1..]);
    if i > 0 {
      MatchedPositionsExact(root, pending[1..], i - 1);
      assert pending[i] == pending[1..][i - 1];
      ShiftedMember(tail, i - 1);
    } else {
      ShiftedMember(tail, 0);
    }
  }

  /** The confirmed words are exactly the words of the entries with a suffix
      that decomposes, each such entry once, in queue order: the k-th confirmed
      word is the word of the entry at the k-th of a strictly increasing list of
      positions, and an entry's position is listed exactly when one of its
      suffixes decomposes. */
  lemma {:induction false} MatchedAtMostOnce(root: Trie, pending: seq<Pending>)
    requires !root.wordEnd
    ensures |Matched(root, pending)| <= |pending|
    ensures forall w :: w in Matched(root, pending) ==> exists i :: 0 <= i < |pending| && pending[i].word == w
    ensures PicksInOrder(Matched(root, pending), MatchedPositions(root, pending), pending)
    ensures forall i :: 0 <= i < |pending| ==>
              (AnyDecomposes(root, pending[i].missing) <==> i in MatchedPositions(root, pending))
  {
    var words, idx := Matched(root, pending), MatchedPositions(root, pending);
    MatchedPicksInOrder(root, pending);
    forall i | 0 <= i < |pending|
      ensures AnyDecomposes(root, pending[i].missing) <==> i in idx
    {
      MatchedPositionsExact(root, pending, i);
    }
    forall w | w in words
      ensures exists i :: 0 <= i < |pending| && pending[i].word == w
    {
      var k :| 0 <= k < |words| && words[k] == w;
      assert pending[idx[k]].word == w;
    }
    StrictlyIncreasingBound(idx, |pending|);
  }

  /** A strictly increasing list of positions below n has at most n entries. */
  lemma {:induction false} StrictlyIncreasingBound(positions: seq<nat>, n: nat)
    requires forall k :: 0 <= k < |positions| ==> positions[k] < n
    requires forall k, l :: 0 <= k < l < |positions| ==> positions[k] < positions[l]
    ensures |positions| <= n
    decreases n
  {
    if positions != [] {
      var front := positions[..|positions| - 1];
      assert forall k :: 0 <= k < |front| ==> front[k] < positions[|positions| - 1];
      StrictlyIncreasingBound(front, positions[|positions| - 1]);
    }
  }

  /** The resolution pass: walks the queue, tests each entry's suffixes in order
      until one decomposes, and then offers the entry's word to the tracker and
      counts it, once per entry. */
  method Resolve(root: Trie, pending: seq<Pending>) returns (top: Top2, total: nat)
    requires !root.wordEnd
    ensures top == Track(Matched(root, pending)) && total == |Matched(root, pending)|
    ensures IsTopTwo(Matched(root, pending), top)
  {
    top, total := NoCandidates, 0;
    ghost var found: seq<Word> := [];
    var queue := pending;
    while queue != []
      invariant Matched(root, pending) == found + Matched(root, queue)
      invariant top == Track(found) && total == |found|
    {
      var entry := queue[0];
      var matched := false;
      var missing := entry.missing;
      while missing != []
        invariant |missing| <= |entry.missing| && missing == entry.missing[|entry.missing| - |missing|..]
        invariant matched <==> exists i :: 0 <= i < |entry.missing| - |missing| && IsInTrie(root, Some(root), entry.missing[i])
        invariant top == if matched then Offer(Track(found), entry.word) else Track(found)
        invariant total == |found| + if matched then 1 else 0
      {
        if !matched && IsInTrie(root, Some(root), missing[0]) {
          top := Offer(top, entry.word);
          total := total + 1;
          matched := true;
        }
        missing := missing[1..];
      }
      if matched {
        assert (found + [entry.word])[..|found|] == found;
        found := found + [entry.word];
      }
      queue := queue[1..];
    }
    assert found + [] == found;
    TrackIsTopTwo(found);
  }

  /** `s` is a concatenation of one or more words of `words`. */
  ghost predicate IsConcatenation(words: seq<Word>, s: Word)
    decreases |s|
  {
    exists k :: 0 < k <= |s| && s[..k] in words && (k == |s| || IsConcatenation(words, s[k..]))
  }

  /** `s` is a concatenation of two or more words of `words`. */
  ghost predicate IsCompound(words: seq<Word>, s: Word)
  {
    exists k :: 0 < k < |s| && s[..k] in words && IsConcatenation(words, s[k..])
  }

  /** Over a trie whose words are `words`, decomposing is being a concatenation of `words`. */
  lemma {:induction false} DecomposesIffConcatenation(root: Trie, words: seq<Word>, s: Word)
    requires forall w :: HasWord(root, w) <==> w in words
    ensures Decomposes(root, s) <==> IsConcatenation(words, s)
    decreases |s|
  {
    forall k | 0 < k < |s|
      ensures Decomposes(root, s[k..]) <==> IsConcatenation(words, s[k..])
    {
      DecomposesIffConcatenation(root, words, s[k..]);
    }
  }

  /** Lexicographic order on words (strcmp order of the lines). */
  predicate LexLess(a: Word, b: Word)
    decreases |a|
  {
    |b| > 0 && (|a| == 0 || a[0] < b[0] || (a[0] == b[0] && LexLess(a[1..], b[1..])))
  }

  predicate Sorted(words: seq<Word>)
  {
    forall i, j :: 0 <= i < j < |words| ==> !LexLess(words[j], words[i])
  }

  lemma {:induction false} ProperPrefixIsLess(a: Word, b: Word)
    requires |a| < |b| && a == b[..|a|]
    ensures LexLess(a, b)
    decreases |a|
  {
    if |a| > 0 {
      assert a[1..] == b[1..][..|a| - 1];
      ProperPrefixIsLess(a[1..], b[1..]);
    }
  }

  /** The confirmed words among the first n inputs, checked against the whole vocabulary. */
  function FoundAmong(words: seq<Word>, n: nat): seq<Word>
    requires NonemptyWords(words) && n <= |words|
  {
    IndexedRootNotWordEnd(words);
    Matched(Indexed(words).root, Indexed(words[..n]).pending)
  }

  /** The confirmed words of the whole input, in resolution order. */
  function Found(words: seq<Word>): seq<Word>
    requires NonemptyWords(words)
  {
    FoundAmong(words, |words|)
  }

  /** The compound words of `ws`, last input first (the queue's order). */
  ghost function CompoundsNewestFirst(vocabulary: seq<Word>, ws: seq<Word>): seq<Word>
  {
    if ws == [] then []
    else (if IsCompound(vocabulary, ws[|ws| - 1]) then [ws[|ws| - 1]] else [])
         + CompoundsNewestFirst(vocabulary, ws[..|ws| - 1])
  }

  /** Whether words[n-1] is confirmed, in terms of the suffixes its insertion recorded. */
  ghost predicate Confirmed(words: seq<Word>, n: nat)
    requires NonemptyWords(words) && 0 < n <= |words|
  {
    IndexedRootNotWordEnd(words);
    var b := Boundaries(Indexed(words[..n - 1]).root, words[n - 1]);
    b != [] && AnyDecomposes(Indexed(words).root, b)
  }

  lemma FoundAmongStep(words: seq<Word>, n: nat)
    requires NonemptyWords(words) && 0 < n <= |words|
    ensures FoundAmong(words, n) == (if Confirmed(words, n) then [words[n - 1]] else []) + FoundAmong(words, n - 1)
  {
    assert words[..n][..n - 1] == words[..n - 1];
    InsertMissing(Indexed(words[..n - 1]).root, words[n - 1], []);
    assert Boundaries(Indexed(words[..n - 1]).root, words[n - 1]) + [] == Boundaries(Indexed(words[..n - 1]).root, words[n - 1]);
  }

  /** A confirmed word is the concatenation of a recorded prefix word and a suffix that decomposes. */
  lemma ConfirmedIsCompound(words: seq<Word>, n: nat)
    requires NonemptyWords(words) && 0 < n <= |words|
    requires Confirmed(words, n)
    ensures IsCompound(words, words[n - 1])
  {
    var x := words[n - 1];
    var front := words[..n - 1];
    var t := Indexed(front).root;
    var root := Indexed(words).root;
    IndexedRootNotWordEnd(words);
    var b := Boundaries(t, x);
    var i :| 0 <= i < |b| && IsInTrie(root, Some(root), b[i]);
    BoundariesExact(t, x, |x|, b[i]);
    var k :| 0 <= k < |x| && HasWord(t, x[..k]) && b[i] == x[k..];
    IndexedVocabulary(front, x[..k]);
    assert k != 0 by { IndexedVocabulary(front, []); assert x[..0] == []; }
    IsInTrieFromRoot(root, b[i]);
    forall w ensures HasWord(root, w) <==> w in words { IndexedVocabulary(words, w); }
    DecomposesIffConcatenation(root, words, x[k..]);
  }

  /** With sorted input every prefix word comes before the words it starts, so
      every compound word is confirmed. */
  lemma CompoundIsConfirmedWhenSorted(words: seq<Word>, n: nat)
    requires NonemptyWords(words) && 0 < n <= |words|
    requires Sorted(words)
    requires IsCompound(words, words[n - 1])
    ensures Confirmed(words, n)
  {
    var x := words[n - 1];
    var front := words[..n - 1];
    var t := Indexed(front).root;
    var root := Indexed(words).root;
    IndexedRootNotWordEnd(words);
    var k :| 0 < k < |x| && x[..k] in words && IsConcatenation(words, x[k..]);
    var i :| 0 <= i < |words| && words[i] == x[..k];
    if i >= n - 1 {
      ProperPrefixIsLess(x[..k], x);
      assert false;
    }
    assert x[..k] in front by { assert front[i] == words[i]; }
    IndexedVocabulary(front, x[..k]);
    BoundariesExact(t, x, |x|, x[k..]);
    var b := Boundaries(t, x);
    var j :| 0 <= j < |b| && b[j] == x[k..];
    forall w ensures HasWord(root, w) <==> w in words { IndexedVocabulary(words, w); }
    DecomposesIffConcatenation(root, words, x[k..]);
    IsInTrieFromRoot(root, x[k..]);
  }

  ghost predicate AllCompound(words: seq<Word>, ws: seq<Word>)
  {
    forall i :: 0 <= i < |ws| ==> IsCompound(words, ws[i])
  }

  lemma AllCompoundAppend(words: seq<Word>, a: seq<Word>, b: seq<Word>)
    requires AllCompound(words, a) && AllCompound(words, b)
    ensures AllCompound(words, a + b)
  {
    forall i | 0 <= i < |a + b|
      ensures IsCompound(words, (a + b)[i])
    {
      if i >= |a| {
        assert (a + b)[i] == b[i - |a|];
      }
    }
  }

  lemma TakeLast<T>(s: seq<T>, n: nat)
    requires 0 < n <= |s|
    ensures s[..n][..n - 1] == s[..n - 1] && s[..n][n - 1] == s[n - 1]
  {
  }

  /** With sorted input, a word is confirmed exactly when it is compound. */
  lemma ConfirmedIffCompound(words: seq<Word>, n: nat)
    requires NonemptyWords(words) && 0 < n <= |words|
    requires Sorted(words)
    ensures Confirmed(words, n) <==> IsCompound(words, words[n - 1])
  {
    if Confirmed(words, n) {
      ConfirmedIsCompound(words, n);
    }
    if IsCompound(words, words[n - 1]) {
      CompoundIsConfirmedWhenSorted(words, n);
    }
  }

  /** Soundness: every confirmed word is a concatenation of two or more input
      words, whatever the input order. */
  lemma {:induction false} FoundIsSound(words: seq<Word>, n: nat)
    requires NonemptyWords(words) && n <= |words|
    ensures AllCompound(words, FoundAmong(words, n))
  {
    if n == 0 {
      assert words[..0] == [];
    } else {
      FoundIsSound(words, n - 1);
      FoundAmongStep(words, n);
      var head := if Confirmed(words, n) then [words[n - 1]] else [];
      var rest := FoundAmong(words, n - 1);
      if Confirmed(words, n) {
        ConfirmedIsCompound(words, n);
      }
      AllCompoundAppend(words, head, rest);
    }
  }

  /** Completeness for sorted input: the confirmed words are exactly the compound
      input words, each once per occurrence, last input first. */
  lemma {:induction false} FoundIsExactWhenSorted(words: seq<Word>, n: nat)
    requires NonemptyWords(words) && n <= |words|
    requires Sorted(words)
    ensures FoundAmong(words, n) == CompoundsNewestFirst(words, words[..n])
  {
    if n == 0 {
      assert words[..0] == [];
    } else {
      FoundIsExactWhenSorted(words, n - 1);
      FoundAmongStep(words, n);
      var x := words[n - 1];
      TakeLast(words, n);
      ConfirmedIffCompound(words, n);
      assert CompoundsNewestFirst(words, words[..n])
          == (if IsCompound(words, x) then [x] else []) + CompoundsNewestFirst(words, words[..n - 1]);
    }
  }

  /** Without sorted input a compound word can be missed: "ab" comes before
      "a", so no word end lies on its path when it is inserted, nothing is
      queued, and nothing is found. */
  lemma PrefixAfterWordIsMissed()
    ensures NonemptyWords(["ab", "a", "b"])
    ensures IsCompound(["ab", "a", "b"], "ab")
    ensures Found(["ab", "a", "b"]) == []
  {
    var words: seq<Word> := ["ab", "a", "b"];
    assert words[..3] == words;
    assert "ab"[..1] == "a" && "ab"[1..] == "b" && "b"[..1] == "b";
    assert IsConcatenation(words, "b");
    assert words[..2][..1] == ["ab"] && words[..1][..0] == [] && words[..2] == ["ab", "a"];
    var t1 := Indexed(["ab"]);
    assert t1.pending == [];
    assert Indexed(["ab", "a"]).pending == [] by { assert !t1.root.wordEnd; }
    assert Indexed(words).pending == [];
  }

  /** The whole computation: the insertion pass, then the resolution pass. */
  method LongestConcatenated(words: seq<Word>) returns (top: Top2, total: nat)
    requires NonemptyWords(words)
    ensures top == Track(Found(words)) && total == |Found(words)|
    ensures IsTopTwo(Found(words), top)
    ensures top.longest.Some? ==> IsCompound(words, top.longest.value)
    ensures top.oldlongest.Some? ==> IsCompound(words, top.oldlongest.value)
    ensures Sorted(words) ==> Found(words) == CompoundsNewestFirst(words, words)
  {
    var idx := Load(words);
    IndexedRootNotWordEnd(words);
    top, total := Resolve(idx.root, idx.pending);
    assert words[..|words|] == words;
    FoundIsSound(words, |words|);
    if Sorted(words) {
      FoundIsExactWhenSorted(words, |words|);
    }
    ghost var found := Found(words);
    if top.longest.Some? {
      ghost var i :| 0 <= i < |found| && LongestAt(found, top, i) && SecondBesides(found, top, i);
      if top.oldlongest.Some? {
        assert |found| != 1;
        ghost var j :| 0 <= j < |found| && SecondAt(found, top, i, j);
      }
    }
  }
}
