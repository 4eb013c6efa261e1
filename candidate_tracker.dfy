/**
 The top-2 tracker of longest-word: the longest and the second longest
 confirmed concatenated words, updated with strict comparisons so that the
 first word seen keeps its place on a tie.
 */
module CandidateTracker {
  import opened PrefixIndex

  /** The compared length is that of the whole input line, which still holds
      its two-character line terminator. */
  const TerminatorLength: nat := 2

  function LineLength(w: Word): nat
  {
    |w| + TerminatorLength
  }

  /** `longest`/`longestLen` and `oldlongest`/`oldlongestLen`; `None` stands for NULL. */
  datatype Top2 = Top2(longest: Option<Word>, longestLen: nat, oldlongest: Option<Word>, oldlongestLen: nat)

  const NoCandidates: Top2 := Top2(None, 0, None, 0)

  /** Offers one confirmed word: a strictly longer word becomes the longest and
      the previous longest moves down; otherwise a word strictly longer than the
      second replaces it; otherwise nothing changes.  Both lengths only grow,
      the order between them is kept, and a word no longer than the longest
      never displaces it. */
  function Offer(t: Top2, w: Word): (r: Top2)
    ensures t.longestLen <= r.longestLen
    ensures t.oldlongestLen <= t.longestLen ==> t.oldlongestLen <= r.oldlongestLen <= r.longestLen
    ensures r.longestLen == if LineLength(w) > t.longestLen then LineLength(w) else t.longestLen
    ensures LineLength(w) <= t.longestLen ==> r.longest == t.longest
    ensures LineLength(w) <= t.oldlongestLen <= t.longestLen ==> r == t
  {
    var len := LineLength(w);
    if len > t.longestLen then
      Top2(Some(w), len, t.longest, t.longestLen)
    else if len > t.oldlongestLen then
      t.(oldlongest := Some(w), oldlongestLen := len)
    else
      t
  }

  /** The tracker after offering `ws` in order. */
  function Track(ws: seq<Word>): Top2
  {
    if ws == [] then NoCandidates else Offer(Track(ws[..|ws| - 1]), ws[|ws| - 1])
  }

  /** ws[i] is the first of the longest words of `ws`, recorded as the longest. */
  ghost predicate LongestAt(ws: seq<Word>, t: Top2, i: int)
    requires 0 <= i < |ws|
  {
    && t.longest == Some(ws[i]) && t.longestLen == LineLength(ws[i])
    && (forall j :: 0 <= j < |ws| ==> LineLength(ws[j]) <= t.longestLen)
    && (forall j :: 0 <= j < i ==> LineLength(ws[j]) < t.longestLen)
  }

  /** ws[j], another word than ws[i], is recorded as the second, and every
      other word before it is strictly shorter: on a tie the first seen wins. */
  ghost predicate SecondAt(ws: seq<Word>, t: Top2, i: int, j: int)
    requires 0 <= i < |ws| && 0 <= j < |ws|
  {
    && j != i && t.oldlongest == Some(ws[j]) && t.oldlongestLen == LineLength(ws[j])
    && (forall k :: 0 <= k < j && k != i ==> LineLength(ws[k]) < t.oldlongestLen)
  }

  /** Leaving out position i, every word is no longer than the second, and the
      second is the first of those words of that length (NULL, length 0, when
      there is no other word). */
  ghost predicate SecondBesides(ws: seq<Word>, t: Top2, i: int)
    requires 0 <= i < |ws|
  {
    && (forall j :: 0 <= j < |ws| && j != i ==> LineLength(ws[j]) <= t.oldlongestLen)
    && if |ws| == 1 then t.oldlongest == None && t.oldlongestLen == 0
       else exists j :: 0 <= j < |ws| && SecondAt(ws, t, i, j)
  }

  /** `t` holds the top two of `ws`: the longest is the first word of maximal
      length, and the second has the largest length among the other words. */
  ghost predicate IsTopTwo(ws: seq<Word>, t: Top2)
  {
    if ws == [] then t == NoCandidates
    else exists i :: 0 <= i < |ws| && LongestAt(ws, t, i) && SecondBesides(ws, t, i)
  }

  /** The second is never longer than the longest. */
  lemma TopTwoOrdered(ws: seq<Word>, t: Top2, i: int)
    requires 0 <= i < |ws| && LongestAt(ws, t, i) && SecondBesides(ws, t, i)
    ensures t.oldlongestLen <= t.longestLen
  {
    if |ws| > 1 {
      var j :| 0 <= j < |ws| && SecondAt(ws, t, i, j);
    }
  }

  /** A strictly longer word becomes the longest; the old longest becomes the second. */
  lemma OfferLonger(p: seq<Word>, t: Top2, i: int, x: Word)
    requires 0 <= i < |p| && LongestAt(p, t, i) && SecondBesides(p, t, i)
    requires LineLength(x) > t.longestLen
    ensures Offer(t, x).oldlongest == t.longest && Offer(t, x).oldlongestLen == t.longestLen
    ensures LongestAt(p + [x], Offer(t, x), |p|) && SecondBesides(p + [x], Offer(t, x), |p|)
  {
    var ws, r := p + [x], Offer(t, x);
    assert forall j :: 0 <= j < |p| ==> ws[j] == p[j];
    assert SecondAt(ws, r, |p|, i);
  }

  /** A word longer than the second only replaces the second. */
  lemma OfferSecond(p: seq<Word>, t: Top2, i: int, x: Word)
    requires 0 <= i < |p| && LongestAt(p, t, i) && SecondBesides(p, t, i)
    requires t.oldlongestLen < LineLength(x) <= t.longestLen
    ensures LongestAt(p + [x], Offer(t, x), i) && SecondBesides(p + [x], Offer(t, x), i)
  {
    var ws := p + [x];
    assert forall j :: 0 <= j < |p| ==> ws[j] == p[j];
    assert ws[|p|] == x;
    assert SecondAt(ws, Offer(t, x), i, |p|);
  }

  /** A word no longer than the second changes nothing. */
  lemma OfferShorter(p: seq<Word>, t: Top2, i: int, x: Word)
    requires 0 <= i < |p| && LongestAt(p, t, i) && SecondBesides(p, t, i)
    requires LineLength(x) <= t.oldlongestLen
    ensures LongestAt(p + [x], Offer(t, x), i) && SecondBesides(p + [x], Offer(t, x), i)
  {
    var ws := p + [x];
    TopTwoOrdered(p, t, i);
    assert Offer(t, x) == t;
    assert forall j :: 0 <= j < |p| ==> ws[j] == p[j];
    assert |p| > 1;
    var j :| 0 <= j < |p| && SecondAt(p, t, i, j);
    assert ws[j] == p[j];
    assert SecondAt(ws, t, i, j);
  }

  /** Offering one more word keeps the tracker the top two of all words offered. */
  lemma OfferKeepsTopTwo(p: seq<Word>, t: Top2, x: Word)
    requires IsTopTwo(p, t)
    ensures IsTopTwo(p + [x], Offer(t, x))
  {
    var ws, r := p + [x], Offer(t, x);
    if p == [] {
      assert LongestAt(ws, r, 0) && SecondBesides(ws, r, 0);
    } else {
      var i :| 0 <= i < |p| && LongestAt(p, t, i) && SecondBesides(p, t, i);
      TopTwoOrdered(p, t, i);
      if LineLength(x) > t.longestLen {
        OfferLonger(p, t, i, x);
      } else if LineLength(x) > t.oldlongestLen {
        OfferSecond(p, t, i, x);
      } else {
        OfferShorter(p, t, i, x);
      }
    }
  }

  /** Offering the words one by one leaves the top two of all of them. */
  lemma {:induction false} TrackIsTopTwo(ws: seq<Word>)
    ensures IsTopTwo(ws, Track(ws))
    decreases |ws|
  {
    if ws != [] {
      var p := ws[..|ws| - 1];
      TrackIsTopTwo(p);
      OfferKeepsTopTwo(p, Track(p), ws[|ws| - 1]);
      assert ws == p + [ws[|ws| - 1]];
    }
  }

  /** On a tie for second place the first word seen is kept: after "aaaa",
      "b", "c" the second is "b", and a tracker holding "c" there is not the
      top two. */
  lemma TieKeepsFirstSeen()
    ensures Track(["aaaa", "b", "c"]).oldlongest == Some("b")
    ensures !IsTopTwo(["aaaa", "b", "c"], Top2(Some("aaaa"), 6, Some("c"), 3))
  {
    var ws: seq<Word> := ["aaaa", "b", "c"];
    var t := Top2(Some("aaaa"), 6, Some("c"), 3);
    assert ws[..2] == ["aaaa", "b"] && ws[..2][..1] == ["aaaa"] && ws[..2][..1][..0] == [];
    assert Track(["aaaa"]) == Top2(Some("aaaa"), 6, None, 0);
    assert Track(["aaaa", "b"]) == Top2(Some("aaaa"), 6, Some("b"), 3);
    forall i, j | 0 <= i < |ws| && 0 <= j < |ws|
      ensures !(LongestAt(ws, t, i) && SecondAt(ws, t, i, j))
    {
      if j == 2 && i != 1 {
        assert LineLength(ws[1]) == t.oldlongestLen;
      }
    }
  }

  /** The tracker never loses ground: offering more words never shortens the
      longest or the second longest, and the second never exceeds the longest. */
  lemma {:induction false} TrackGrows(ws: seq<Word>, more: seq<Word>)
    ensures Track(ws).oldlongestLen <= Track(ws).longestLen
    ensures Track(ws).longestLen <= Track(ws + more).longestLen
    ensures Track(ws).oldlongestLen <= Track(ws + more).oldlongestLen
    decreases |ws| + |more|
  {
    if ws != [] {
      TrackGrows(ws[..|ws| - 1], []);
      assert ws[..|ws| - 1] + [] == ws[..|ws| - 1];
    }
    if more != [] {
      var front := more[..|more| - 1];
      TrackGrows(ws, front);
      assert (ws + more)[..|ws + more| - 1] == ws + front;
      TrackGrows(ws + front, []);
      assert ws + front + [] == ws + front;
    } else {
      assert ws + more == ws;
    }
  }
}
