# longest-word in Dafny

This project models the core of `main.c`, a program that reads a word list
and reports the longest and the second longest words that are concatenations
of two or more words of the list, together with how many such words there are.

The core has three parts.

- **Prefix index** (module `PrefixIndex`, `prefix_index.dfy`).
  - A 26-way trie over lowercase words, written as the datatype
    `Trie = Node(wordEnd, children)`. Its children are a map from `Letter`
    (`'a'..'z'`, standing for `INDEX`/`NBCHAR`) to subtries. A slot that is
    not in the map is a null child.
  - `Insert` inserts a word and returns the updated node together with its
    "missing" list. Whenever the walk passes a node that is already a word end
    and some of the word remains, that remainder is prepended to the list.
  - `Boundaries` is the reference definition of what one insertion records.
- **Decomposition check** (module `Decomposition`, `decomposition.dfy`).
  - `IsInTrie` follows `is_in_trie` branch for branch: either descend with
    the first letter, or, at a word end, restart at the root with the whole
    remaining text.
  - It terminates because the root is never a word end. The measure is the
    remaining length, then whether the node is the root.
  - It is proved equivalent to the ghost predicate `Decomposes`: the text is
    one or more words of the trie.
- **Resolution pass and top-2 tracker** (modules `CandidateTracker` and
  `LongestWord`).
  - `Offer` is one update of `longest`/`oldlongest`, with the source's strict
    comparisons. `Track` folds it over the confirmed words.
  - `IsTopTwo` states declaratively what the tracker holds, including that
    on a tie the word seen first keeps its place.
  - `Load` is the insertion loop of `main`. `Resolve` is its resolution loop,
    with the nested queue and suffix loops and the `matched` flag.
  - `LongestConcatenated` runs the two passes one after the other.

Some behaviour of the code is worth knowing before reading the proofs.

- **Length counts the line terminator.** The compared length is `strlen` of
  the stored line, and that line still holds its two-character terminator.
  `LineLength(w)` is therefore `|w| + 2`. The offset is the same for every
  word, so no comparison changes.
- **Suffixes are tested shortest first.** Both lists are built by prepending.
  The suffix list therefore starts with the suffix found last, which is the
  shortest. The queue starts with the last word inserted. The model keeps both
  orders, so the tie-break in `Offer` sees entries in reverse input order.
- **The result depends on input order.** A boundary is seen only at a prefix
  word inserted earlier.
  - Soundness holds for any order: `FoundIsSound` shows that every confirmed
    word is a concatenation of two or more input words.
  - Completeness holds for lexicographically sorted input, which is what the
    usage text asks for. `FoundIsExactWhenSorted` shows that the confirmed
    words are then exactly the compound input words.
  - Without sorting, compound words can be missed. `PrefixAfterWordIsMissed`
    shows this on the input `ab`, `a`, `b`.

## Model

| member | source | states |
|---|---|---|
| PrefixIndex.PushMissing | main.c:240-248 | the new list has the suffix at its head, followed by the old list unchanged |
| PrefixIndex.InsertLookup | main.c:179-198 | after insertion the word is a word of the trie and no other word is added or removed; new nodes appear exactly on the prefixes of the word; every other path reaches the same subtree as before |
| PrefixIndex.InsertMissing | main.c:182-192 | the list that insertion returns is the recorded boundary suffixes prepended onto the incoming list |
| PrefixIndex.BoundariesExact | main.c:182-185 | a suffix w[k..] is recorded exactly when k is less than the length of w and w[..k] was already a word before the insertion |
| PrefixIndex.BoundariesOrdered | main.c:184-185 | recorded suffixes are nonempty, and strictly shorter toward the head of the list (decreasing k) |
| PrefixIndex.BoundariesStep | main.c:182-192 | one step of the recursion: the boundaries of w at a node are those of w[1..] at the child, followed by w itself when the node is a word end |
| PrefixIndex.LookupStep | main.c:188-192 | a nonempty path is followed by taking the child of its first letter, a missing child behaving as a fresh empty node |
| PrefixIndex.Insert | main.c:179-198 | inserting a nonempty remainder leaves the current node's word-end mark as it was |
| Decomposition.IsInTrie | main.c:205-220 | the check fails on a missing node and, on empty text, is the node's word-end mark; it terminates whenever the root is not a word end (measure: remaining length, then whether the node is the root); its full meaning is IsInTrieCorrect |
| Decomposition.IsInTrieCorrect | main.c:205-220 | the check fails on a missing node, is the word-end mark on empty text, and in general holds exactly when a prefix of the text ends a word below the node and the rest is empty or decomposes into words |
| Decomposition.CompletesFromStep | main.c:217-219 | completing from a node on nonempty text either goes through the child of the first letter or ends a word here and decomposes all of the rest |
| Decomposition.IsInTrieFromRoot | main.c:205-220 | called at the root, the check holds exactly when the text is a concatenation of one or more words of the trie |
| Decomposition.IsInTrieFromPath | main.c:205-220 | called at the node of path p, the check holds exactly when p·s is a concatenation of words whose first word extends p |
| CandidateTracker.Offer | main.c:118-135 | neither length decreases; the second stays no longer than the longest; the new longest length is the maximum of the old one and the word's; a word no longer than the longest never displaces it; a word no longer than the second changes nothing |
| CandidateTracker.TopTwoOrdered | main.c:120-135 | when the tracker holds the top two, the second is no longer than the longest |
| CandidateTracker.OfferLonger | main.c:120-127 | a strictly longer word becomes the longest, and the previous longest, with its length, becomes the second |
| CandidateTracker.OfferSecond | main.c:129-134 | a word longer than the second but not the longest replaces only the second |
| CandidateTracker.OfferShorter | main.c:118-135 | a word no longer than the second leaves the top two as they were |
| CandidateTracker.OfferKeepsTopTwo | main.c:118-135 | one more offer keeps the tracker the top two of all words offered so far |
| CandidateTracker.TrackIsTopTwo | main.c:106-137 | after offering a sequence of words, the longest is the first word of maximal length and the second is the first seen of the other words of largest length (NULL and 0 when there is only one word) |
| CandidateTracker.TieKeepsFirstSeen | main.c:129-134 | on the input aaaa, b, c the second is b, the first of the tied words, and a tracker holding c as the second is not the top two |
| CandidateTracker.TrackGrows | main.c:120-135 | offering more words never shortens the longest or the second, and the second never exceeds the longest |
| LongestWord.PushPending | main.c:255-264 | the new queue has the entry at its head, followed by the old queue unchanged |
| LongestWord.Load | main.c:82-104 | the insertion loop builds the index of the words in order; the trie's words are exactly the input words; every queued entry has a nonempty missing list |
| LongestWord.IndexedVocabulary | main.c:86-104 | a word is in the trie exactly when it is one of the input words |
| LongestWord.IndexedShape | main.c:188-189 | a node exists exactly on the paths that are prefixes of input words |
| LongestWord.IndexedRootNotWordEnd | main.c:88-100 | since short lines are skipped, the root is never a word end, which is what makes the decomposition check terminate |
| LongestWord.IndexedQueuesOnlyCandidates | main.c:101-103 | only words with a nonempty missing list are queued |
| LongestWord.IndexedPendingSound | main.c:100-103 | each queued entry is an input word, and each of its suffixes follows a proper nonempty prefix that is an input word |
| LongestWord.MatchedAtMostOnce | main.c:113-144 | the confirmed words are picked from the queue at strictly increasing positions, so each entry is confirmed at most once and in queue order; the k-th confirmed word is the word of the entry at the k-th position; an entry's position is picked exactly when one of its suffixes decomposes; hence there are no more confirmed words than entries |
| LongestWord.Resolve | main.c:106-151 | the resolution loops confirm each entry whose suffixes include one that decomposes, once, in queue order; the tracker then holds the top two of the confirmed words and the total is their number |
| LongestWord.DecomposesIffConcatenation | main.c:205-220 | over the built trie, decomposing into trie words is being a concatenation of input words |
| LongestWord.ProperPrefixIsLess | main.c:292 | a proper prefix sorts strictly before the word it starts |
| LongestWord.FoundAmongStep | main.c:100-117 | each input word adds itself to the confirmed words exactly when one of the suffixes its insertion recorded decomposes |
| LongestWord.ConfirmedIsCompound | main.c:100-117 | a confirmed word is a prefix that is an input word followed by a suffix that is a concatenation of input words |
| LongestWord.CompoundIsConfirmedWhenSorted | main.c:184 | with sorted input, every compound word is confirmed |
| LongestWord.ConfirmedIffCompound | main.c:184 | with sorted input, a word is confirmed exactly when it is compound |
| LongestWord.FoundIsSound | main.c:100-138 | for any input order, every confirmed word is a concatenation of two or more input words |
| LongestWord.FoundIsExactWhenSorted | main.c:184 | with sorted input, the confirmed words are exactly the compound input words, last input first |
| LongestWord.PrefixAfterWordIsMissed | main.c:184 | for the unsorted input ab, a, b the word ab is compound but nothing is confirmed |
| LongestWord.LongestConcatenated | main.c:69-151 | the two passes yield the top two and the count of the confirmed words; both reported words are compound; with sorted input, the confirmed words are exactly the compound input words |

## Left out

- Reading the input (`getline`, main.c:86-90) is not modelled. The input is a sequence of words over `'a'..'z'`, each without its line terminator. `NonemptyWords` stands in for the skip of lines of length at most 2. Every line is assumed to end in a two-character terminator, as the code's `read-2` does. A last line without a terminator, or a one-character terminator, would lose letters in the code and is not modelled.
- Argument parsing, `usage`, `fopen`/`fclose`, `perror` and the three `printf` lines (main.c:73-76, 153-155, 169, 272-293) are I/O. The printed values are the fields of `Top2` and `total`.
- `free_trie` and every `malloc`/`calloc`/`strdup`/`strndup`/`free` (main.c:141-149, 157-167, 225-233) are memory management. Allocation failure, which the code does not check, is not modelled.
- The `has_prefix` computation (main.c:92-96) has no effect and is left out. So are the `likely`/`unlikely` hints (main.c:57-63).
- Insert: the in-place update of trie nodes is modelled on values. Each call returns the rebuilt node. This is faithful because every node has exactly one parent and no other pointer to it, so nothing aliases; it does not capture the memory layout.
- Insert: its own contract states only that the word-end mark of the current node is kept. What it does to words and nodes is stated by `InsertLookup`, and what it records is stated by `InsertMissing`.
- LongestConcatenated: `total` is an unbounded `nat`. The source's `unsigned int` wrap-around after 2^32 confirmed words is not modelled, and neither is the `size_t` range of the lengths.
- IsInTrie: the `root` global is passed as a parameter.
