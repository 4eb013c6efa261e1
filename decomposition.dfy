/**
 The decomposition check of longest-word: a two-branch recursion over the trie
 that either continues the current word or, at a word end, restarts at the root
 with the whole remaining text.
 */
module Decomposition {
  import opened PrefixIndex

  /** `s` is a concatenation of one or more words of the trie rooted at `root`. */
  ghost predicate Decomposes(root: Trie, s: Word)
    decreases |s|
  {
    exists k :: 0 < k <= |s| && HasWord(root, s[..k]) && (k == |s| || Decomposes(root, s[k..]))
  }

  /** Starting at node `n`, some prefix s[..j] completes a word below `n`, and
      the rest of `s` is empty or decomposes into words of `root`. */
  ghost predicate CompletesFrom(root: Trie, n: Trie, s: Word)
  {
    exists j :: 0 <= j <= |s| && HasWord(n, s[..j]) && (j == |s| || Decomposes(root, s[j..]))
  }

  /** The decomposition check.  A missing node fails; at the end of the text
      the answer is whether the node is a word end; otherwise either descend
      with the first letter, or, at a word end, restart at the root with the
      whole remaining text.  It terminates because the root is never a word
      end: the restart leaves a node that is not the root. */
  function IsInTrie(root: Trie, node: Option<Trie>, s: Word): (r: bool)
    requires !root.wordEnd
    ensures node.None? ==> !r
    ensures |s| == 0 ==> r == (node.Some? && node.value.wordEnd)
    decreases |s|, if node == Some(root) then 0 else 1
  {
    match node
    case None => false
    case Some(n) =>
      if |s| == 0 then n.wordEnd
      else IsInTrie(root, Child(n, s[0]), s[1..]) || (n.wordEnd && IsInTrie(root, Some(root), s))
  }

  /** From the root, nothing completes an empty prefix, so completing is decomposing. */
  lemma CompletesFromRoot(root: Trie, s: Word)
    requires !root.wordEnd
    ensures CompletesFrom(root, root, s) <==> Decomposes(root, s)
  {
    if CompletesFrom(root, root, s) {
      var j :| 0 <= j <= |s| && HasWord(root, s[..j]) && (j == |s| || Decomposes(root, s[j..]));
      assert j != 0 by { assert s[..0] == []; }
    }
  }

  /** Completing from a node on nonempty text either goes through the child of
      the first letter, or ends a word right here and decomposes the rest. */
  lemma CompletesFromStep(root: Trie, n: Trie, s: Word)
    requires |s| > 0
    ensures CompletesFrom(root, n, s)
        <==> (Child(n, s[0]).Some? && CompletesFrom(root, Child(n, s[0]).value, s[1..]))
             || (n.wordEnd && Decomposes(root, s))
  {
    var child := Child(n, s[0]);
    if CompletesFrom(root, n, s) {
      var j :| 0 <= j <= |s| && HasWord(n, s[..j]) && (j == |s| || Decomposes(root, s[j..]));
      if j == 0 {
        assert s[..0] == [] && s[0..] == s;
      } else {
        LookupStep(n, s[..j]);
        assert s[..j][0] == s[0] && s[..j][1..] == s[1..][..j - 1];
        assert s[j..] == s[1..][j - 1..];
        assert child.Some? by { EmptyHasOnlyRoot(s[1..][..j - 1]); }
        assert HasWord(child.value, s[1..][..j - 1]);
      }
    }
    if child.Some? && CompletesFrom(root, child.value, s[1..]) {
      var c := child.value;
      var j :| 0 <= j <= |s| - 1 && HasWord(c, s[1..][..j]) && (j == |s| - 1 || Decomposes(root, s[1..][j..]));
      LookupStep(n, s[..j + 1]);
      assert s[..j + 1][0] == s[0] && s[..j + 1][1..] == s[1..][..j];
      assert s[j + 1..] == s[1..][j..];
      assert HasWord(n, s[..j + 1]);
    }
    if n.wordEnd && Decomposes(root, s) {
      assert s[..0] == [] && s[0..] == s;
      assert HasWord(n, s[..0]);
    }
  }

  /** The decomposition check is correct from any node: it holds exactly when
      some prefix of `s` ends a word below the node and the rest of `s` is empty
      or a concatenation of words of the trie.  In particular it fails on a
      missing node and, on empty text, is the node's word-end mark. */
  lemma {:induction false} IsInTrieCorrect(root: Trie, node: Option<Trie>, s: Word)
    requires !root.wordEnd
    ensures IsInTrie(root, node, s) <==> node.Some? && CompletesFrom(root, node.value, s)
    decreases |s|, if node == Some(root) then 0 else 1
  {
    if node.Some? {
      var n := node.value;
      if |s| == 0 {
        assert s[..0] == s;
      } else {
        // The descent branch is a word end after the first letter, the restart
        // branch a word end right here.
        IsInTrieCorrect(root, Child(n, s[0]), s[1..]);
        if n.wordEnd {
          IsInTrieCorrect(root, Some(root), s);
          CompletesFromRoot(root, s);
        }
        CompletesFromStep(root, n, s);
      }
    }
  }

  /** Called at the root, the check decides whether `s` is a concatenation of
      one or more words of the trie. */
  lemma IsInTrieFromRoot(root: Trie, s: Word)
    requires !root.wordEnd
    ensures IsInTrie(root, Some(root), s) <==> Decomposes(root, s)
  {
    IsInTrieCorrect(root, Some(root), s);
    CompletesFromRoot(root, s);
  }

  /** Called at the node of path `p`, the check holds exactly when p + s is a
      concatenation of words whose first word has `p` as a prefix. */
  lemma IsInTrieFromPath(root: Trie, p: Word, s: Word)
    requires !root.wordEnd
    requires Lookup(root, p).Some?
    ensures IsInTrie(root, Lookup(root, p), s)
        <==> exists j :: 0 <= j <= |s| && HasWord(root, p + s[..j]) && (j == |s| || Decomposes(root, s[j..]))
  {
    IsInTrieCorrect(root, Lookup(root, p), s);
    forall j | 0 <= j <= |s|
      ensures HasWord(root, p + s[..j]) <==> HasWord(Lookup(root, p).value, s[..j])
    {
      LookupAppend(root, p, s[..j]);
    }
  }
}
