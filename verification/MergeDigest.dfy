/**
 The bounded subunit digest of `body_inclusive_merge_text`
 (crates/maintenance/src/merge.rs), over the whitespace words of each subunit.
 */
module MergeDigest {
  import opened Wrappers

  type Word = string

  const MAX_TOKENS_PER_SUBUNIT := 100
  const MAX_TOTAL_DIGEST_TOKENS := 1500

  function Capped(words: seq<Word>): seq<Word> {
    words[..Min(|words|, MAX_TOKENS_PER_SUBUNIT)]
  }

  /** All words of a list of parts, in order. */
  function Flatten(parts: seq<seq<Word>>): seq<Word> {
    if parts == [] then [] else Flatten(parts[..|parts| - 1]) + parts[|parts| - 1]
  }

  /** All words of the subunits, each cut to its cap. */
  function CappedWords(subunits: seq<seq<Word>>): seq<Word> {
    if subunits == [] then [] else CappedWords(subunits[..|subunits| - 1]) + Capped(subunits[|subunits| - 1])
  }

  /** At most 100 words of a subunit are kept, its first ones, and all of them if there are no more. */
  lemma CapKeepsFirstHundred(words: seq<Word>)
    ensures Capped(words) <= words && |Capped(words)| <= 100
    ensures |Capped(words)| < 100 ==> Capped(words) == words
  {
  }

  lemma FlattenAppend(parts: seq<seq<Word>>, part: seq<Word>)
    ensures Flatten(parts + [part]) == Flatten(parts) + part
  {
    assert (parts + [part])[..|parts|] == parts;
  }

  lemma {:induction false} CappedWordsGrow(subunits: seq<seq<Word>>, i: nat)
    requires i <= |subunits|
    ensures CappedWords(subunits[..i]) <= CappedWords(subunits)
    decreases |subunits| - i
  {
    if i < |subunits| {
      CappedWordsGrow(subunits, i + 1);
      assert subunits[..i + 1][..i] == subunits[..i];
    } else {
      assert subunits[..i] == subunits;
    }
  }

  lemma CappedWordsNext(subunits: seq<seq<Word>>, i: nat)
    requires i < |subunits|
    ensures CappedWords(subunits[..i + 1]) == CappedWords(subunits[..i]) + Capped(subunits[i])
  {
    assert subunits[..i + 1][..i] == subunits[..i];
  }

  lemma BudgetIsMet(taken: seq<Word>, next: seq<Word>, whole: seq<Word>, remaining: nat)
    requires taken + next <= whole && remaining <= |next|
    ensures |taken| + remaining <= |whole| && taken + next[..remaining] == whole[..|taken| + remaining]
    ensures remaining == 0 ==> taken == whole[..|taken|]
  {
    assert whole[..|taken + next|] == taken + next;
    assert (taken + next)[..|taken| + remaining] == taken + next[..remaining];
  }

  /**
   The digest's words are exactly the first `MAX_TOTAL_DIGEST_TOKENS` of the capped
   words, or all of them when there are fewer; every slice taken is in bounds. There
   is one part per subunit reached, whole but for the one that meets the budget.
   */
  method DigestParts(subunits: seq<seq<Word>>) returns (parts: seq<seq<Word>>)
    ensures Flatten(parts) == CappedWords(subunits)[..Min(|CappedWords(subunits)|, 1500)]
    ensures |parts| <= |subunits|
    ensures forall k :: 0 <= k < |parts| ==> parts[k] <= Capped(subunits[k])
    ensures forall k :: 0 <= k < |parts| - 1 ==> parts[k] == Capped(subunits[k])
  {
    parts := [];
    var used := 0;
    for i := 0 to |subunits|
      invariant used <= MAX_TOTAL_DIGEST_TOKENS
      invariant Flatten(parts) == CappedWords(subunits[..i]) && used == |Flatten(parts)|
      invariant |parts| == i && forall k :: 0 <= k < i ==> parts[k] == Capped(subunits[k])
    {
      var cappedWords := Capped(subunits[i]);
      var wordCount := |cappedWords|;
      CappedWordsNext(subunits, i);
      if used + wordCount > MAX_TOTAL_DIGEST_TOKENS {
        var remaining := MAX_TOTAL_DIGEST_TOKENS - used;
        CappedWordsGrow(subunits, i + 1);
        BudgetIsMet(Flatten(parts), cappedWords, CappedWords(subunits), remaining);
        if remaining == 0 {
          return;
        }
        FlattenAppend(parts, cappedWords[..remaining]);
        parts := parts + [cappedWords[..remaining]];
        return;
      }
      FlattenAppend(parts, cappedWords);
      parts := parts + [cappedWords];
      used := used + wordCount;
    }
    assert subunits[..|subunits|] == subunits;
  }
}
