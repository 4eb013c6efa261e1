/**
 The prefix index of longest-word: a 26-way trie over lowercase words whose
 insertion also reports the "missing" suffixes, the remainders of the word
 that follow a prefix which is already a known word.
 */
module PrefixIndex {

  /** One of the 26 lowercase letters; a node has one child slot per letter. */
  type Letter = c: char | 'a' <= c <= 'z' witness 'a'

  type Word = seq<Letter>

  datatype Option<T> = None | Some(value: T)

  /** A trie node: `wordEnd` marks that the path from the root to this node is
      a word, `children` holds the child slots that are not null. */
  datatype Trie = Node(wordEnd: bool, children: map<Letter, Trie>)

  /** A freshly allocated (zeroed) node. */
  const Empty: Trie := Node(false, map[])

  function Child(t: Trie, c: Letter): Option<Trie>
  {
    if c in t.children then Some(t.children[c]) else None
  }

  /** The child in slot `c`, or a fresh node where the slot is empty. */
  function ChildOrEmpty(t: Trie, c: Letter): Trie
  {
    if c in t.children then t.children[c] else Empty
  }

  /** The node reached from `t` by following path `p`, if every slot on the way is set. */
  function Lookup(t: Trie, p: Word): Option<Trie>
    decreases |p|
  {
    if p == [] then Some(t)
    else match Child(t, p[0])
      case None => None
      case Some(c) => Lookup(c, p[1..])
  }

  /** `w` is a word of the trie rooted at `t`: its path exists and ends at a word end. */
  predicate HasWord(t: Trie, w: Word)
  {
    Lookup(t, w).Some? && Lookup(t, w).value.wordEnd
  }

  predicate IsPrefix(p: Word, w: Word)
  {
    |p| <= |w| && p == w[..|p|]
  }

  /** Prepends a suffix to a missing list. */
  function PushMissing(list: seq<Word>, missing: Word): (r: seq<Word>)
    ensures |r| == |list| + 1 && r[0] == missing && r[1..] == list
  {
    [missing] + list
  }

  /** Inserts the remaining part `rest` of a word below `node`, creating
      children on demand and marking the last node as a word end.  Whenever the
      current node is already a word end and some of the word remains, that
      remainder is pushed onto the missing list.  Returns the updated node and
      the updated missing list. */
  function Insert(node: Trie, rest: Word, missing: seq<Word>): (r: (Trie, seq<Word>))
    ensures |rest| > 0 ==> r.0.wordEnd == node.wordEnd
    decreases |rest|
  {
    if |rest| > 0 then
      var m := if node.wordEnd then PushMissing(missing, rest) else missing;
      var (c, m') := Insert(ChildOrEmpty(node, rest[0]), rest[1..], m);
      (node.(children := node.children[rest[0] := c]), m')
    else
      (node.(wordEnd := true), missing)
  }

  /** Reference definition of what one insertion of `w` below `t` records:
      the suffixes w[k..] with k < n whose prefix w[..k] is already a word of
      `t`, by decreasing k (the suffix found last comes first). */
  function BoundariesBelow(t: Trie, w: Word, n: nat): seq<Word>
    requires n <= |w|
  {
    if n == 0 then []
    else (if HasWord(t, w[..n - 1]) then [w[n - 1..]] else []) + BoundariesBelow(t, w, n - 1)
  }

  function Boundaries(t: Trie, w: Word): seq<Word>
  {
    BoundariesBelow(t, w, |w|)
  }

  /** The recorded suffixes are not empty and are strictly ordered by length,
      the shortest (found last) at the head. */
  lemma {:induction false} BoundariesOrdered(t: Trie, w: Word, n: nat)
    requires n <= |w|
    ensures forall i :: 0 <= i < |BoundariesBelow(t, w, n)| ==> |w| - n < |BoundariesBelow(t, w, n)[i]|
    ensures forall i, j :: 0 <= i < j < |BoundariesBelow(t, w, n)| ==>
              |BoundariesBelow(t, w, n)[i]| < |BoundariesBelow(t, w, n)[j]|
  {
    if n > 0 {
      BoundariesOrdered(t, w, n - 1);
    }
  }

  lemma EmptyHasOnlyRoot(p: Word)
    ensures Lookup(Empty, p) == if p == [] then Some(Empty) else None
  {
  }

  /** Following a nonempty path is following its first letter, then the rest. */
  lemma {:induction false} LookupStep(t: Trie, p: Word)
    requires p != []
    ensures HasWord(t, p) <==> HasWord(ChildOrEmpty(t, p[0]), p[1..])
    ensures Lookup(t, p).Some? <==> p[0] in t.children && Lookup(ChildOrEmpty(t, p[0]), p[1..]).Some?
  {
    if p[0] !in t.children {
      EmptyHasOnlyRoot(p[1..]);
    }
  }

  /** Lookup along a concatenated path goes through the node at the first part. */
  lemma {:induction false} LookupAppend(t: Trie, p: Word, q: Word)
    requires Lookup(t, p).Some?
    ensures Lookup(t, p + q) == Lookup(Lookup(t, p).value, q)
    decreases |p|
  {
    if p != [] {
      assert (p + q)[0] == p[0] && (p + q)[1..] == p[1..] + q;
      LookupAppend(t.children[p[0]], p[1..], q);
    } else {
      assert p + q == q;
    }
  }

  /** Insertion changes the trie only along the path of the word: the word
      becomes a word of the trie and no other word is added or removed, the new
      nodes are exactly the missing prefixes of the word, and every path that is
      not a prefix of the word leads to the same subtree as before. */
  lemma {:induction false} InsertLookup(node: Trie, rest: Word, missing: seq<Word>, p: Word)
    ensures HasWord(Insert(node, rest, missing).0, p) <==> HasWord(node, p) || p == rest
    ensures Lookup(Insert(node, rest, missing).0, p).Some? <==> Lookup(node, p).Some? || IsPrefix(p, rest)
    ensures !IsPrefix(p, rest) ==> Lookup(Insert(node, rest, missing).0, p) == Lookup(node, p)
    decreases |rest|
  {
    var t' := Insert(node, rest, missing).0;
    if |rest| == 0 {
      if p != [] {
        assert Child(t', p[0]) == Child(node, p[0]);
      }
    } else if p == [] {
      assert IsPrefix(p, rest);
    } else {
      var m := if node.wordEnd then PushMissing(missing, rest) else missing;
      var child := ChildOrEmpty(node, rest[0]);
      var c := Insert(child, rest[1..], m).0;
      assert t' == node.(children := node.children[rest[0] := c]);
      if p[0] == rest[0] {
        InsertLookup(child, rest[1..], m, p[1..]);
        LookupStep(node, p);
        LookupStep(t', p);
        assert ChildOrEmpty(t', p[0]) == c;
        assert p == rest <==> p[1..] == rest[1..] by {
          if p[1..] == rest[1..] { assert p == [p[0]] + p[1..] && rest == [rest[0]] + rest[1..]; }
        }
        assert IsPrefix(p, rest) <==> IsPrefix(p[1..], rest[1..]) by {
          if IsPrefix(p[1..], rest[1..]) {
            assert p == [p[0]] + p[1..];
            assert rest[..|p|] == [rest[0]] + rest[1..][..|p| - 1];
          }
        }
        if !IsPrefix(p, rest) {
          if p[0] !in node.children {
            EmptyHasOnlyRoot(p[1..]);
          }
        }
      } else {
        assert !IsPrefix(p, rest);
        assert Child(t', p[0]) == Child(node, p[0]);
      }
    }
  }

  /** Dropping the first letter: the boundaries of `w` below `t` are those of
      the rest of `w` below the child, followed by `w` itself when `t` is a word end. */
  lemma {:induction false} BoundariesStep(t: Trie, w: Word, n: nat)
    requires 1 <= n <= |w|
    ensures BoundariesBelow(t, w, n)
         == BoundariesBelow(ChildOrEmpty(t, w[0]), w[1..], n - 1) + (if t.wordEnd then [w] else [])
  {
    var c := ChildOrEmpty(t, w[0]);
    var last := if t.wordEnd then [w] else [];
    if n == 1 {
      assert w[..0] == [] && w[0..] == w;
      assert HasWord(t, w[..0]) == t.wordEnd;
    } else {
      BoundariesStep(t, w, n - 1);
      var rest := BoundariesBelow(c, w[1..], n - 2);
      assert w[..n - 1][0] == w[0] && w[..n - 1][1..] == w[1..][..n - 2];
      LookupStep(t, w[..n - 1]);
      assert w[n - 1..] == w[1..][n - 2..];
      var here := if HasWord(t, w[..n - 1]) then [w[n - 1..]] else [];
      assert here == if HasWord(c, w[1..][..n - 2]) then [w[1..][n - 2..]] else [];
      assert BoundariesBelow(c, w[1..], n - 1) == here + rest;
      assert BoundariesBelow(t, w, n) == here + (rest + last);
      assert here + (rest + last) == (here + rest) + last;
    }
  }

  /** The missing list that insertion returns is the boundaries of the word
      prepended onto the incoming list. */
  lemma {:induction false} InsertMissing(node: Trie, rest: Word, missing: seq<Word>)
    ensures Insert(node, rest, missing).1 == Boundaries(node, rest) + missing
    decreases |rest|
  {
    if |rest| > 0 {
      var here := if node.wordEnd then [rest] else [];
      var m := if node.wordEnd then PushMissing(missing, rest) else missing;
      var child := ChildOrEmpty(node, rest[0]);
      var below := Boundaries(child, rest[1..]);
      calc {
        Insert(node, rest, missing).1;
        Insert(child, rest[1..], m).1;
        { InsertMissing(child, rest[1..], m); }
        below + m;
        { assert m == here + missing; }
        below + (here + missing);
        (below + here) + missing;
        { BoundariesStep(node, rest, |rest|); }
        Boundaries(node, rest) + missing;
      }
    } else {
      assert Insert(node, rest, missing).1 == missing;
      assert Boundaries(node, rest) == [];
      assert [] + missing == missing;
    }
  }

  /** A suffix is recorded exactly when its prefix was already a word: every
      recorded suffix is w[k..] for some k < |w| (so it is not empty) with
      w[..k] a word of `t`, and every such k is recorded. */
  lemma {:induction false} BoundariesExact(t: Trie, w: Word, n: nat, s: Word)
    requires n <= |w|
    ensures s in BoundariesBelow(t, w, n) <==> exists k :: 0 <= k < n && HasWord(t, w[..k]) && s == w[k..]
  {
    if n > 0 {
      BoundariesExact(t, w, n - 1, s);
      if s in BoundariesBelow(t, w, n - 1) {
        var k :| 0 <= k < n - 1 && HasWord(t, w[..k]) && s == w[k..];
      }
      if exists k :: 0 <= k < n && HasWord(t, w[..k]) && s == w[k..] {
        var k :| 0 <= k < n && HasWord(t, w[..k]) && s == w[k..];
        if k < n - 1 {
          assert s in BoundariesBelow(t, w, n - 1);
        }
      }
    }
  }
}
